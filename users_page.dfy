/**
 * The state of the Users page of frontend/src/pages/Users.tsx and the handlers
 * that update it: loading the list, opening and closing the modals, the input
 * handlers, `resetForm`, `saveUser` and `confirmDelete`. The server's answer
 * to a request is a parameter of the handler that sends it; the list the
 * server returns after a save arrives through `LoadUsers`, since `loadUsers()`
 * is not awaited.
 */
module UsersPage {
  import opened Maybe
  import opened Db
  import opened UsersForm

  /** The origin the stored avatar path is resolved against for the preview. */
  const BackendOrigin := "http://localhost:4000"

  /** A request the page sends. */
  datatype Request =
    | Put(id: int, name: string, email: string, avatar: Option<File>)
    | Post(name: string, email: string, avatar: Option<File>)
    | Delete(id: int)

  /** How a request ended: a 2xx answer, an error status with the body's message, or no answer at all. */
  datatype ApiResult = Success | HttpError(status: int, message: string) | NoResponse

  /** A JavaScript truth test of a `number | null` state: null and 0 are false. */
  predicate Truthy(id: Option<int>) {
    id.Some? && id.value != 0
  }

  /** The request `saveUser` builds: PUT /users/<editingId> when editing, POST /users otherwise. */
  function SaveRequest(editingId: Option<int>, f: Form): (r: Request)
    ensures r.Put? <==> Truthy(editingId)
    ensures r.Put? || r.Post?
    ensures r.Put? ==> r.id == editingId.value
    ensures !r.Delete? ==> r.name == f.name && r.email == f.email && r.avatar == f.avatar
  {
    if Truthy(editingId) then Put(editingId.value, f.name, f.email, f.avatar)
    else Post(f.name, f.email, f.avatar)
  }

  /** The errors after a failed save: the server's message on email for a 409, none otherwise. */
  function ErrorsAfterFailure(response: ApiResult): (r: map<Field, string>)
    ensures EmailField in r <==> response.HttpError? && response.status == 409
    ensures NameField !in r && AvatarField !in r
    ensures EmailField in r ==> r[EmailField] == response.message
  {
    if response.HttpError? && response.status == 409 then map[EmailField := response.message] else map[]
  }

  /**
   * The optimistic patch of an edit keeps the list's length and order and every
   * row's id and avatar, gives the edited rows the form's name and email, and
   * leaves every other row as it was.
   */
  lemma OptimisticPatch(users: seq<Row>, id: int, name: string, email: string)
    ensures var p := UpdateWhere(users, id, name, email, None);
      && |p| == |users|
      && forall k | 0 <= k < |users| ::
           && p[k].id == users[k].id
           && p[k].avatar == users[k].avatar
           && (users[k].id == id ==> p[k] == users[k].(name := name, email := email))
           && (users[k].id != id ==> p[k] == users[k])
  {
    forall k | 0 <= k < |users|
      ensures var p := UpdateWhere(users, id, name, email, None);
        p[k].id == users[k].id && p[k].avatar == users[k].avatar
        && (users[k].id == id ==> p[k] == users[k].(name := name, email := email))
        && (users[k].id != id ==> p[k] == users[k])
    {
      UpdateWhereAt(users, id, name, email, None, k);
    }
  }

  class Page {
    var users: seq<Row>
    var openAdd: bool
    var openEdit: bool
    /** The id whose delete awaits confirmation. */
    var openDelete: Option<int>
    var form: Form
    var errors: map<Field, string>
    var editingId: Option<int>
    var loading: bool

    /** The state on mount. */
    constructor ()
      ensures users == [] && !openAdd && !openEdit && openDelete == None
      ensures form == EmptyForm() && errors == map[] && editingId == None && !loading
    {
      users := [];
      openAdd, openEdit, openDelete := false, false, None;
      form := EmptyForm();
      errors := map[];
      editingId := None;
      loading := false;
    }

    /** loadUsers: the list is replaced by the one the server returned. */
    method LoadUsers(list: seq<Row>)
      modifies this`users
      ensures users == list
    {
      users := list;
    }

    /** resetForm: empty name and email, no file, no preview, no errors, not editing. */
    method ResetForm()
      modifies this`form, this`errors, this`editingId
      ensures form == EmptyForm() && errors == map[] && editingId == None
    {
      form := EmptyForm();
      errors := map[];
      editingId := None;
    }

    /** The "Add User" button: a reset form in the add modal. */
    method StartAdd()
      modifies this`form, this`errors, this`editingId, this`openAdd
      ensures form == EmptyForm() && errors == map[] && editingId == None && openAdd
    {
      ResetForm();
      openAdd := true;
    }

    /**
     * A row's "Edit" button: edit that id, with its name and email in the form,
     * no file, and its stored avatar (when non-empty) as the preview.
     */
    method StartEdit(u: Row)
      modifies this`editingId, this`form, this`errors, this`openEdit
      ensures editingId == Some(u.id) && errors == map[] && openEdit
      ensures form.name == u.name && form.email == u.email && form.avatar == None
      ensures form.avatarPreview ==
                if u.avatar.Some? && u.avatar.value != "" then Some(BackendOrigin + u.avatar.value) else None
    {
      editingId := Some(u.id);
      form := Form(u.name, u.email, None,
                   if u.avatar.Some? && u.avatar.value != "" then Some(BackendOrigin + u.avatar.value) else None);
      errors := map[];
      openEdit := true;
    }

    /** A row's "Delete" button: ask to confirm deleting that id. */
    method AskDelete(id: int)
      modifies this`openDelete
      ensures openDelete == Some(id)
    {
      openDelete := Some(id);
    }

    /** Closing the add/edit modal (its close control or "Cancel"); the form is kept. */
    method CloseFormModal()
      modifies this`openAdd, this`openEdit
      ensures !openAdd && !openEdit
    {
      openAdd, openEdit := false, false;
    }

    /** Closing the delete modal without deleting. */
    method CancelDelete()
      modifies this`openDelete
      ensures openDelete == None
    {
      openDelete := None;
    }

    /** Typing in the name input. */
    method OnNameInput(value: string)
      modifies this`form
      ensures form == old(form).(name := value)
    {
      form := form.(name := value);
    }

    /** Typing in the email input also blanks the email error (the key stays, with ""). */
    method OnEmailInput(value: string)
      modifies this`form, this`errors
      ensures form == old(form).(email := value)
      ensures errors == old(errors)[EmailField := ""]
    {
      form := form.(email := value);
      errors := errors[EmailField := ""];
    }

    /**
     * The file picker: the picked file (or none) replaces the form's file; a new
     * file's object URL becomes the preview, and with no file the previous
     * preview stays.
     */
    method OnFileInput(file: Option<File>, objectUrl: string)
      modifies this`form
      ensures form.name == old(form).name && form.email == old(form).email
      ensures form.avatar == file
      ensures form.avatarPreview == if file.Some? then Some(objectUrl) else old(form).avatarPreview
    {
      form := form.(avatar := file, avatarPreview := if file.Some? then Some(objectUrl) else form.avatarPreview);
    }

    /** validate: stores the error record and answers whether it is empty. */
    method RunValidate() returns (ok: bool)
      modifies this`errors
      ensures errors == Validate(form)
      ensures ok <==> errors == map[]
    {
      errors := Validate(form);
      ok := errors == map[];
    }

    /**
     * saveUser. A form that fails validation sends nothing and changes nothing
     * but the errors. Otherwise it sends PUT (editing) or POST; on success the
     * edited row gets the form's name and email in the list (avatar untouched),
     * the form is reset and the modals close; on a 409 the errors are exactly
     * the server's message on email; on any other failure there are no errors
     * and the modal stays as it was. `loading` is false once a request ends.
     */
    method SaveUser(response: ApiResult) returns (sent: Option<Request>)
      modifies this`users, this`form, this`errors, this`editingId, this`loading, this`openAdd, this`openEdit
      ensures Validate(old(form)) != map[] ==>
        && sent == None && errors == Validate(old(form))
        && users == old(users) && form == old(form) && editingId == old(editingId)
        && loading == old(loading) && openAdd == old(openAdd) && openEdit == old(openEdit)
      ensures Validate(old(form)) == map[] ==>
        sent == Some(SaveRequest(old(editingId), old(form))) && !loading
      ensures Validate(old(form)) == map[] && response == Success ==>
        && users == (if Truthy(old(editingId))
                     then UpdateWhere(old(users), old(editingId).value, old(form).name, old(form).email, None)
                     else old(users))
        && form == EmptyForm() && errors == map[] && editingId == None && !openAdd && !openEdit
      ensures Validate(old(form)) == map[] && response != Success ==>
        && users == old(users) && form == old(form) && editingId == old(editingId)
        && openAdd == old(openAdd) && openEdit == old(openEdit)
        && errors == ErrorsAfterFailure(response)
    {
      var ok := RunValidate();
      if !ok {
        return None;
      }
      loading := true;
      var f, id := form, editingId;
      sent := Some(SaveRequest(id, f));
      if response == Success {
        if Truthy(id) {
          // Optimistic update of the edited row.
          users := UpdateWhere(users, id.value, f.name, f.email, None);
        }
        ResetForm();
        openAdd, openEdit := false, false;
      } else if response.HttpError? && response.status == 409 {
        errors := map[EmailField := response.message];
      }
      loading := false;
    }

    /**
     * confirmDelete. With no id to delete (null, or the falsy 0) it sends
     * nothing and changes nothing. Otherwise it sends DELETE for that id; on
     * success the rows with that id leave the list, the rest keep their order;
     * whatever the outcome, the confirmation is cleared.
     */
    method ConfirmDelete(response: ApiResult) returns (sent: Option<Request>)
      modifies this`users, this`openDelete
      ensures !Truthy(old(openDelete)) ==> sent == None && users == old(users) && openDelete == old(openDelete)
      ensures Truthy(old(openDelete)) ==>
        && sent == Some(Delete(old(openDelete).value))
        && openDelete == None
        && users == (if response == Success then Without(old(users), old(openDelete).value) else old(users))
    {
      if !Truthy(openDelete) {
        return None;
      }
      var id := openDelete.value;
      sent := Some(Delete(id));
      if response == Success {
        users := Without(users, id);
      }
      openDelete := None;
    }
  }
}
