/** The list page: which of the four views is shown, and the page's own
    state (the record being edited, whether the edit modal is open, the form
    and the delete confirmation dialog) driven by one event at a time. */
module UserList {
  import opened Wrappers
  import opened UserRecord
  import opened UseUsers
  import opened EditUserModal
  import opened UserCard

  // ---------------------------------------------------------------- rendering

  datatype View = Spinner | ErrorAlert(description: string) | EmptyView | Grid(cards: seq<User>)

  /** JavaScript truthiness of the `error` state: `null` and "" are falsy. */
  predicate Truthy(error: Option<string>)
    ensures error.None? ==> !Truthy(error)
    ensures error == Some("") ==> !Truthy(error)
    ensures Truthy(error) ==> |error.value| > 0
    ensures error.Some? && error.value != "" ==> Truthy(error)
  {
    error.Some? && error.value != ""
  }

  /** The render branches in priority order: loading, error, no users, the grid. */
  function RenderView(st: Store): (v: View)
    ensures v.Spinner? <==> st.loading
    ensures v.ErrorAlert? <==> !st.loading && Truthy(st.error)
    ensures v.ErrorAlert? ==> v.description == st.error.value
    ensures v.EmptyView? <==> !st.loading && !Truthy(st.error) && |st.users| == 0
    ensures v.Grid? <==> !st.loading && !Truthy(st.error) && |st.users| > 0
    ensures v.Grid? ==> v.cards == st.users
  {
    if st.loading then Spinner
    else if Truthy(st.error) then ErrorAlert(st.error.value)
    else if |st.users| == 0 then EmptyView
    else Grid(st.users)
  }

  // ---------------------------------------------------------------- page state

  /** The confirmation dialog `handleDelete` opens: the id it will delete and
      the name it shows (absent when no record has that id). */
  datatype ConfirmDialog = ConfirmDialog(userId: int, name: Option<string>)

  datatype PageState = PageState(
    store: Store,
    editing: Option<User>,
    visible: bool,
    form: FormValues,
    confirm: Option<ConfirmDialog>)

  /** The page at mount: the store's initial state, nothing edited, the
      modal and the dialog closed, the spinner showing. */
  function InitialPage(): (p: PageState)
    ensures p.store.users == [] && p.store.loading && p.store.error.None?
    ensures p.editing.None? && !p.visible && p.confirm.None? && !AllPresent(p.form)
    ensures RenderView(p.store) == Spinner
  {
    PageState(InitialStore(), None, false, BlankForm(), None)
  }

  datatype Event =
    | LoadSettled(result: FetchResult, draws: seq<real>)
    | CardClicked(user: User, action: CardAction)
    | ConfirmOk
    | ConfirmDismissed
    | FormEdited(values: FormValues)
    | SaveClicked
    | CancelClicked

  /** The events the page can receive in a state: the one load settles while
      loading; card buttons are reachable when the grid shows the card and no
      dialog masks the page; the form's buttons while the modal is open; the
      dialog's buttons while it is open. A successful response is taken to
      carry unique ids. */
  predicate Enabled(s: PageState, e: Event) {
    match e
    case LoadSettled(result, draws) =>
      s.store.loading && DrawsFor(result, draws) && (Succeeds(result) ==> UniqueIds(result.body.records))
    case CardClicked(u, _) =>
      RenderView(s.store).Grid? && u in s.store.users && !s.visible && s.confirm.None?
    case ConfirmOk => s.confirm.Some?
    case ConfirmDismissed => s.confirm.Some?
    case FormEdited(_) => s.visible && RenderView(s.store).Grid?
    case SaveClicked => s.visible && RenderView(s.store).Grid?
    case CancelClicked => s.visible && RenderView(s.store).Grid?
  }

  /** `handleEdit` followed by the modal's populate effect. */
  function HandleEdit(s: PageState, u: User): (r: PageState)
    ensures r.editing == Some(u) && r.visible
    ensures r.form == FromUser(u)
    ensures r.store == s.store && r.confirm == s.confirm
  {
    var shown := s.(editing := Some(u), visible := true);
    shown.(form := Populate(shown.form, shown.editing, shown.visible))
  }

  /** `handleCloseModal`. */
  function CloseModal(s: PageState): (r: PageState)
    ensures r.editing.None? && !r.visible
    ensures r.store == s.store && r.form == s.form && r.confirm == s.confirm
  {
    s.(visible := false, editing := None)
  }

  /** `handleDelete`: look the record up for its name and open the dialog. */
  function HandleDelete(s: PageState, id: int): (r: PageState)
    ensures r.confirm.Some? && r.confirm.value.userId == id
    ensures r.confirm.value.name.Some? <==> HasId(s.store.users, id)
    ensures r.confirm.value.name.Some? ==>
      exists i | 0 <= i < |s.store.users| :: s.store.users[i].id == id && s.store.users[i].name == r.confirm.value.name.value
    ensures r.store == s.store && r.editing == s.editing && r.visible == s.visible && r.form == s.form
  {
    var found := Find(s.store.users, id);
    s.(confirm := Some(ConfirmDialog(id, if found.Some? then Some(found.value.name) else None)))
  }

  /** One event applied to the page. */
  function Step(s: PageState, e: Event, validEmail: string -> bool): (r: PageState)
    requires e.LoadSettled? ==> DrawsFor(e.result, e.draws)
    ensures !e.LoadSettled? ==> r.store.loading == s.store.loading && r.store.error == s.store.error
    ensures s.store.error.Some? ==> r.store.error.Some?
  {
    match e
    case LoadSettled(result, draws) =>
      s.(store := FetchUsers(s.store, result, draws))
    case CardClicked(u, action) =>
      (match CardIntent(u, action)
       case ToggleLikeOf(id) => s.(store := s.store.(users := ToggleLike(s.store.users, id)))
       case EditRecord(rec) => HandleEdit(s, rec)
       case DeleteRequest(id) => HandleDelete(s, id))
    case ConfirmOk =>
      if s.confirm.Some? then
        s.(store := s.store.(users := DeleteUser(s.store.users, s.confirm.value.userId)), confirm := None)
      else s
    case ConfirmDismissed =>
      s.(confirm := None)
    case FormEdited(values) =>
      s.(form := values)
    case SaveClicked =>
      (match HandleSave(s.editing, s.form, validEmail)
       case Saved(updated) =>
         CloseModal(s.(store := s.store.(users := UpdateUser(s.store.users, updated))))
       case Rejected(_) => s
       case NoRecord => s)
    case CancelClicked =>
      CloseModal(s.(form := BlankForm()))
  }

  // ---------------------------------------------------------------- invariant

  /** The page invariant: the modal is open exactly when a record is being
      edited; every stored record and the edited one satisfy the like
      invariant; ids are unique; nothing is stored or open while loading. */
  predicate Inv(s: PageState) {
    && (s.visible <==> s.editing.Some?)
    && AllValidLikes(s.store.users)
    && (s.editing.Some? ==> ValidLikes(s.editing.value))
    && UniqueIds(s.store.users)
    && (s.store.loading ==> |s.store.users| == 0 && !s.visible && s.confirm.None?)
  }

  lemma InitialPageInv()
    ensures Inv(InitialPage())
  {
  }

  /** Every enabled event keeps the page invariant. */
  lemma StepKeepsInv(s: PageState, e: Event, validEmail: string -> bool)
    requires Inv(s)
    requires Enabled(s, e)
    ensures Inv(Step(s, e, validEmail))
  {
    var r := Step(s, e, validEmail);
    match e
    case LoadSettled(result, draws) =>
      if Succeeds(result) {
        FreshLoadKeepsIds(result.body.records, draws);
        assert Ids(r.store.users) == Ids(result.body.records);
      }
    case CardClicked(u, action) => {
      match action
      case LikeButton =>
        ToggleKeepsValidLikes(s.store.users, u.id);
        ToggleLikeFrame(s.store.users, u.id);
      case EditButton =>
        var k :| 0 <= k < |s.store.users| && s.store.users[k] == u;
        assert ValidLikes(s.store.users[k]);
      case DeleteButton =>
    }
    case ConfirmOk =>
      DeleteKeepsUniqueIds(s.store.users, s.confirm.value.userId);
      var kept := DeleteUser(s.store.users, s.confirm.value.userId);
      forall i | 0 <= i < |kept| ensures ValidLikes(kept[i]) {
        assert kept[i] in s.store.users;
      }
    case ConfirmDismissed =>
    case FormEdited(_) =>
    case SaveClicked =>
      var out := HandleSave(s.editing, s.form, validEmail);
      if out.Saved? {
        UpdateKeepsIds(s.store.users, out.user);
        assert ValidLikes(out.user) by {
          assert LikeCount(out.user) == LikeCount(s.editing.value);
        }
      }
    case CancelClicked =>
  }

  // ---------------------------------------------------------------- delete and save

  /** The delete button only opens the dialog for the card's id; no record changes. */
  lemma DeleteButtonOnlyAsks(s: PageState, u: User, validEmail: string -> bool)
    ensures var r := Step(s, CardClicked(u, DeleteButton), validEmail);
      r.store == s.store && r.confirm.Some? && r.confirm.value.userId == u.id
  {
  }

  /** The like button toggles the card's own id and changes nothing else. */
  lemma LikeButtonToggles(s: PageState, u: User, validEmail: string -> bool)
    ensures Step(s, CardClicked(u, LikeButton), validEmail)
            == s.(store := s.store.(users := ToggleLike(s.store.users, u.id)))
  {
  }

  /** The edit button opens the editor on the card's own record, filled from it. */
  lemma EditButtonOpensEditor(s: PageState, u: User, validEmail: string -> bool)
    ensures var r := Step(s, CardClicked(u, EditButton), validEmail);
      r == HandleEdit(s, u) && r.editing == Some(u) && r.visible && r.form == FromUser(u) && r.store == s.store
  {
  }

  /** Confirming deletes exactly the id the dialog was opened for and closes it. */
  lemma ConfirmDeletes(s: PageState, validEmail: string -> bool)
    requires s.confirm.Some?
    ensures var r := Step(s, ConfirmOk, validEmail);
      r.store.users == DeleteUser(s.store.users, s.confirm.value.userId) && r.confirm.None?
      && r.editing == s.editing && r.visible == s.visible && r.form == s.form
      && !HasId(r.store.users, s.confirm.value.userId)
  {
  }

  /** Dismissing the dialog only closes it. */
  lemma DismissChangesNothing(s: PageState, validEmail: string -> bool)
    ensures Step(s, ConfirmDismissed, validEmail) == s.(confirm := None)
  {
  }

  /** Records disappear only when the dialog's OK is pressed. */
  lemma RecordsShrinkOnlyOnConfirm(s: PageState, e: Event, validEmail: string -> bool)
    requires Inv(s)
    requires Enabled(s, e)
    requires |Step(s, e, validEmail).store.users| < |s.store.users|
    ensures e.ConfirmOk?
  {
    match e
    case LoadSettled(_, _) =>
    case CardClicked(u, action) =>
    case ConfirmOk =>
    case ConfirmDismissed =>
    case FormEdited(_) =>
    case SaveClicked =>
    case CancelClicked =>
  }

  /** A valid save hands the merged record to `updateUser` unchanged and
      closes the modal; an invalid one changes nothing. */
  lemma SaveForwardsMergedRecord(s: PageState, validEmail: string -> bool)
    requires s.editing.Some?
    ensures AllPresent(s.form) && validEmail(s.form.email) ==>
      var r := Step(s, SaveClicked, validEmail);
      r.store.users == UpdateUser(s.store.users, Merge(s.editing.value, s.form))
      && !r.visible && r.editing.None?
    ensures !(AllPresent(s.form) && validEmail(s.form.email)) ==>
      Step(s, SaveClicked, validEmail) == s
  {
  }

  /** Cancelling the modal clears the form and closes it; no record changes. */
  lemma CancelChangesNoRecord(s: PageState, validEmail: string -> bool)
    ensures var r := Step(s, CancelClicked, validEmail);
      r.store == s.store && r.form == BlankForm() && !r.visible && r.editing.None? && r.confirm == s.confirm
  {
  }

  /** Opening a record's editor and saving without edits leaves the store as
      it was, when the record has no hidden nested keys and its fields pass
      validation. */
  lemma EditThenSaveUnchanged(s: PageState, u: User, validEmail: string -> bool)
    requires Inv(s)
    requires Enabled(s, CardClicked(u, EditButton))
    requires !HasHiddenNestedKeys(u)
    requires AllPresent(FromUser(u)) && validEmail(u.email)
    ensures var r := Step(Step(s, CardClicked(u, EditButton), validEmail), SaveClicked, validEmail);
      r.store == s.store && !r.visible && r.editing.None?
  {
    UneditedRoundTrip(u);
    var k :| 0 <= k < |s.store.users| && s.store.users[k] == u;
    UpdateWithStoredRecordIsNoop(s.store.users, k);
  }

  // ---------------------------------------------------------------- load

  /** What the first load shows: the grid of fresh records when it brings
      some, the empty view when it brings none, the error text when it fails
      with one; a failure whose message is empty shows the empty view. */
  lemma FirstLoadView(result: FetchResult, draws: seq<real>, validEmail: string -> bool)
    requires DrawsFor(result, draws)
    ensures var v := RenderView(Step(InitialPage(), LoadSettled(result, draws), validEmail).store);
      && (Succeeds(result) && |result.body.records| > 0 ==> v.Grid? && |v.cards| == |result.body.records|)
      && (Succeeds(result) && |result.body.records| == 0 ==> v.EmptyView?)
      && (!Succeeds(result) && FailureMessage(result) != "" ==> v == ErrorAlert(FailureMessage(result)))
      && (!Succeeds(result) && FailureMessage(result) == "" ==> v.EmptyView?)
  {
  }
}
