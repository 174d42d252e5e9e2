/**
 * The early-exit checks at the start of the upload handlers of app.py,
 * `create_document` (POST /api/documents) and `register_user`
 * (POST /api/register), as decision functions over what the request and
 * the uploader lookup supplied. `Proceed` means the handler goes on to read
 * the file, save it and write to the database; every `Reject` leaves before
 * any of that.
 */
module Validation {
  import opened Wrappers
  import opened Upload

  /** The handler either goes on with the validated values or answers with a status and an error text. */
  datatype Decision<T> = Proceed(value: T) | Reject(status: nat, error: string)

  /**
   * The result of `SELECT regulatorid FROM users WHERE userid = ...` for the
   * uploader: the query raised, returned no row, or returned a row whose
   * regulator column may be NULL.
   */
  datatype RegulatorLookup = LookupFailed(reason: string) | NoRow | Row(regulatorId: Option<int>)

  const NotAssociated := "Admin user is not associated with a regulator."
  const NoFilePart := "No file part"
  const NoSelectedFile := "No selected file"
  const TypeNotAllowed := "File type not allowed"

  /**
   * `create_document` up to the form fields. `filePart` is the filename of
   * the `file` part of the multipart request, None when there is no such part.
   * A failing lookup gives 500, an uploader without a regulator 403, and a
   * bad file part 400; the upload goes ahead, filed under the uploader's
   * regulator, exactly when none of these applies.
   */
  function CreateDocumentCheck(lookup: RegulatorLookup, filePart: Option<string>): (d: Decision<int>)
    ensures d.Reject? && d.status == 500 <==> lookup.LookupFailed?
    ensures d.Reject? && d.status == 403 <==> lookup == NoRow || lookup == Row(None)
    ensures d.Reject? && d.status == 400 <==>
      lookup.Row? && lookup.regulatorId.Some? && !(filePart.Some? && AllowedFile(filePart.value))
    ensures d.Proceed? <==>
      lookup.Row? && lookup.regulatorId.Some? && filePart.Some? && AllowedFile(filePart.value)
    ensures d.Proceed? ==> d.value == lookup.regulatorId.value
  {
    match lookup
    case LookupFailed(reason) => Reject(500, "Database error: " + reason)
    case NoRow => Reject(403, NotAssociated)
    case Row(None) => Reject(403, NotAssociated)
    case Row(Some(regulatorId)) =>
      if filePart.None? then Reject(400, NoFilePart)
      else if filePart.value == "" then Reject(400, NoSelectedFile)
      else if !AllowedFile(filePart.value) then Reject(400, TypeNotAllowed)
      else Proceed(regulatorId)
  }

  /**
   * An uploader without a regulator gets 403 before the file is looked at:
   * the answer is the same whatever the file part.
   */
  lemma CreateDocumentRegulatorFirst(lookup: RegulatorLookup, filePart: Option<string>, other: Option<string>)
    requires !(lookup.Row? && lookup.regulatorId.Some?)
    ensures CreateDocumentCheck(lookup, filePart) == CreateDocumentCheck(lookup, other)
    ensures CreateDocumentCheck(lookup, filePart).Reject?
    ensures CreateDocumentCheck(lookup, filePart).status == 403 <==> !lookup.LookupFailed?
  {
  }

  /**
   * With a regulator found, the file checks run in order, each answering 400:
   * no part, then an empty filename, then a disallowed extension.
   */
  lemma CreateDocumentFileOrder(regulatorId: int, filePart: Option<string>)
    ensures var d := CreateDocumentCheck(Row(Some(regulatorId)), filePart);
      && (d == Reject(400, NoFilePart) <==> filePart.None?)
      && (d == Reject(400, NoSelectedFile) <==> filePart == Some(""))
      && (d == Reject(400, TypeNotAllowed) <==>
            filePart.Some? && filePart.value != "" && !AllowedFile(filePart.value))
      && (d == Proceed(regulatorId) <==> filePart.Some? && AllowedFile(filePart.value))
  {
    NoDotRejected("");
  }

  /** The upload goes ahead exactly when every check passes, under the uploader's regulator. */
  lemma CreateDocumentProceeds(lookup: RegulatorLookup, filePart: Option<string>, regulatorId: int)
    ensures CreateDocumentCheck(lookup, filePart) == Proceed(regulatorId) <==>
      lookup == Row(Some(regulatorId)) && filePart.Some? && AllowedFile(filePart.value)
  {
    NoDotRejected("");
  }

  const ProfileMissing := "Profile PDF is missing."
  const FieldsRequired := "Email, password, user type, and profile PDF are required."
  const InvalidProfileType := "Invalid file type for profile."

  /**
   * The parts of a registration request: the filename of the `profilePDF`
   * part and the form fields, each None when absent from the request.
   */
  datatype RegisterForm = RegisterForm(
    profile: Option<string>,
    email: Option<string>,
    password: Option<string>,
    userTypeId: Option<string>)

  /** The values a valid registration goes on with. */
  datatype Registration = Registration(email: string, password: string, userTypeId: string, filename: string)

  /** Python truthiness of `request.form.get(...)`: absent (None) and "" are both false. */
  predicate Truthy(field: Option<string>) {
    field.Some? && field.value != ""
  }

  /**
   * `register_user` up to saving the file. The uploaded file object is
   * falsy when its filename is empty, so an empty filename fails the
   * `all([...])` check. Every rejection is a 400; the request goes ahead
   * exactly when the part and all three fields are present and non-empty and
   * the extension is allowed, and then with the submitted values.
   */
  function RegisterCheck(form: RegisterForm): (d: Decision<Registration>)
    ensures d.Reject? ==> d.status == 400
    ensures d.Proceed? <==>
      && form.profile.Some? && AllowedFile(form.profile.value)
      && Truthy(form.email) && Truthy(form.password) && Truthy(form.userTypeId)
    ensures d.Proceed? ==> d.value == Registration(form.email.value, form.password.value, form.userTypeId.value, form.profile.value)
  {
    if form.profile.None? then Reject(400, ProfileMissing)
    else if !(Truthy(form.email) && Truthy(form.password) && Truthy(form.userTypeId) && form.profile.value != "")
    then Reject(400, FieldsRequired)
    else if !AllowedFile(form.profile.value) then Reject(400, InvalidProfileType)
    else Proceed(Registration(form.email.value, form.password.value, form.userTypeId.value, form.profile.value))
  }

  /** A missing profile part is reported first, whatever the form fields hold. */
  lemma RegisterProfileFirst(form: RegisterForm)
    requires form.profile.None?
    ensures RegisterCheck(form) == Reject(400, ProfileMissing)
  {
  }

  /**
   * With the part present, a missing or empty field (or an empty filename)
   * is reported before the extension is looked at; every rejection is a 400.
   */
  lemma RegisterFieldsBeforeExtension(form: RegisterForm)
    requires form.profile.Some?
    ensures RegisterCheck(form) == Reject(400, FieldsRequired) <==>
      !Truthy(form.email) || !Truthy(form.password) || !Truthy(form.userTypeId) || form.profile.value == ""
    ensures RegisterCheck(form) == Reject(400, InvalidProfileType) <==>
      Truthy(form.email) && Truthy(form.password) && Truthy(form.userTypeId)
      && form.profile.value != "" && !AllowedFile(form.profile.value)
    ensures RegisterCheck(form).Reject? ==> RegisterCheck(form).status == 400
  {
  }

  /** Registration goes ahead exactly when every part is present and non-empty and the extension is allowed. */
  lemma RegisterProceeds(form: RegisterForm, reg: Registration)
    ensures RegisterCheck(form) == Proceed(reg) <==>
      && form.profile == Some(reg.filename) && AllowedFile(reg.filename)
      && form.email == Some(reg.email) && reg.email != ""
      && form.password == Some(reg.password) && reg.password != ""
      && form.userTypeId == Some(reg.userTypeId) && reg.userTypeId != ""
  {
    NoDotRejected("");
  }
}
