/**
 * Saving the profile form: the checks run before anything is sent, the
 * update payload, and the form state after the server's answer.
 */
module Profile {
  import opened Wrappers
  import Text

  datatype FormData = FormData(
    name: string,
    institution: string,
    currentPassword: string,
    newPassword: string,
    confirmPassword: string)

  /** The body of the update request; the two password fields are sent only together. */
  datatype UpdatePayload = UpdatePayload(
    name: string,
    institution: string,
    password: Option<string>,
    currentPassword: Option<string>)

  /** The server's answer to the update, or a failure to reach it. */
  datatype ServerReply = Accepted | Rejected(error: Option<string>) | Unreachable

  /** What a save attempt shows the user. */
  datatype SaveOutcome =
    | Invalid(message: string)                     // a check failed; nothing was sent
    | Saved(payload: UpdatePayload)                // sent and accepted
    | NotSaved(payload: UpdatePayload, message: string)  // sent and refused, or not delivered

  /** The first failing check, in the order the form runs them. */
  function ValidationError(f: FormData): (e: Option<string>)
    ensures Text.Trim(f.name) == "" ==> e == Some("Name is required")
    ensures e.None? <==>
      Text.Trim(f.name) != "" && (f.newPassword != "" ==> f.newPassword == f.confirmPassword && |f.newPassword| >= 6)
  {
    if Text.Trim(f.name) == "" then Some("Name is required")
    else if f.newPassword != "" && f.newPassword != f.confirmPassword then Some("New passwords do not match")
    else if f.newPassword != "" && |f.newPassword| < 6 then Some("Password must be at least 6 characters")
    else None
  }

  /** The update sent for a valid form. */
  function PayloadOf(f: FormData): (p: UpdatePayload)
    ensures p.name == f.name && p.institution == f.institution
    ensures p.password.Some? <==> f.newPassword != ""
    ensures p.currentPassword.Some? <==> f.newPassword != ""
    ensures p.password.Some? ==> p.password.value == f.newPassword && p.currentPassword == Some(f.currentPassword)
  {
    if f.newPassword != "" then UpdatePayload(f.name, f.institution, Some(f.newPassword), Some(f.currentPassword))
    else UpdatePayload(f.name, f.institution, None, None)
  }

  /** The form after a successful save: the three password fields cleared, name and institution kept. */
  function ClearedPasswords(f: FormData): FormData {
    f.(currentPassword := "", newPassword := "", confirmPassword := "")
  }

  /** The message shown for a refused save: the server's error when it is a non-empty string, else a generic one. */
  function RefusalMessage(error: Option<string>): string {
    if error.Some? && error.value != "" then error.value else "Failed to update profile"
  }

  /** The outcome of saving `f` when the server answers `reply`. */
  function SaveResult(f: FormData, reply: ServerReply): SaveOutcome {
    if ValidationError(f).Some? then Invalid(ValidationError(f).value)
    else
      match reply
      case Accepted => Saved(PayloadOf(f))
      case Rejected(error) => NotSaved(PayloadOf(f), RefusalMessage(error))
      case Unreachable => NotSaved(PayloadOf(f), "Failed to update profile")
  }

  /** The editable profile form. */
  class ProfileForm {
    var form: FormData
    var isEditing: bool

    constructor (name: string, institution: string)
      ensures form == FormData(name, institution, "", "", "") && !isEditing
    {
      form := FormData(name, institution, "", "", "");
      isEditing := false;
    }

    /**
     * Runs the checks, builds the payload field by field, and on acceptance
     * leaves editing mode and clears the password fields.
     */
    method HandleSave(reply: ServerReply) returns (outcome: SaveOutcome)
      modifies this
      ensures outcome == SaveResult(old(form), reply)
      ensures outcome.Saved? ==> form == ClearedPasswords(old(form)) && !isEditing
      ensures !outcome.Saved? ==> form == old(form) && isEditing == old(isEditing)
    {
      if Text.Trim(form.name) == "" {
        return Invalid("Name is required");
      }
      if form.newPassword != "" && form.newPassword != form.confirmPassword {
        return Invalid("New passwords do not match");
      }
      if form.newPassword != "" && |form.newPassword| < 6 {
        return Invalid("Password must be at least 6 characters");
      }
      var updateData := UpdatePayload(form.name, form.institution, None, None);
      if form.newPassword != "" {
        updateData := updateData.(password := Some(form.newPassword), currentPassword := Some(form.currentPassword));
      }
      match reply {
        case Accepted =>
          isEditing := false;
          form := form.(currentPassword := "", newPassword := "", confirmPassword := "");
          outcome := Saved(updateData);
        case Rejected(error) =>
          outcome := NotSaved(updateData, RefusalMessage(error));
        case Unreachable =>
          outcome := NotSaved(updateData, "Failed to update profile");
      }
    }
  }

  /** A refused save shows the server's error, or the generic message when there is none or it is empty. */
  lemma RefusedSaveReportsServerError(f: FormData, e: string)
    requires ValidationError(f).None?
    ensures SaveResult(f, Rejected(Some(e))) == NotSaved(PayloadOf(f), if e == "" then "Failed to update profile" else e)
    ensures SaveResult(f, Unreachable) == SaveResult(f, Rejected(None))
  {
  }

  /** A whitespace-only name is refused before any password check. */
  lemma BlankNameRefusedFirst(f: FormData)
    requires Text.AllSpace(f.name)
    ensures ValidationError(f) == Some("Name is required")
  {
    Text.TrimEmptyIff(f.name);
  }

  /** A mismatch is reported before a short password. */
  lemma MismatchBeforeLength(f: FormData)
    requires Text.Trim(f.name) != ""
    requires f.newPassword != "" && f.newPassword != f.confirmPassword && |f.newPassword| < 6
    ensures ValidationError(f) == Some("New passwords do not match")
  {
  }

  /** A matching new password shorter than six characters is refused. */
  lemma ShortPasswordRefused(f: FormData)
    requires Text.Trim(f.name) != ""
    requires f.newPassword != "" && f.newPassword == f.confirmPassword && |f.newPassword| < 6
    ensures ValidationError(f) == Some("Password must be at least 6 characters")
  {
  }

  /** Leaving the new password empty skips both password checks, whatever the confirmation says. */
  lemma EmptyNewPasswordSkipsChecks(f: FormData)
    requires Text.Trim(f.name) != "" && f.newPassword == ""
    ensures ValidationError(f).None?
    ensures PayloadOf(f).password.None? && PayloadOf(f).currentPassword.None?
  {
  }

  /** After a successful save the form holds no password and the next save sends none. */
  lemma SavedFormSendsNoPassword(f: FormData)
    requires Text.Trim(f.name) != ""
    ensures SaveResult(ClearedPasswords(f), Accepted) == Saved(UpdatePayload(f.name, f.institution, None, None))
  {
  }
}
