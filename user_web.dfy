/** The registration form check of the user pages. */
module UserWeb {
  import opened Wrappers

  /** The four fields of the form, absent when the form lacks them. */
  datatype RegistrationForm = RegistrationForm(username: Option<string>, name: Option<string>,
                                               password: Option<string>, confirmation: Option<string>)

  /** Python truthiness of an optional text: present and non-empty. */
  predicate Filled(field: Option<string>)
  {
    field.Some? && |field.value| > 0
  }

  /** `validate_registration_form`: the message to show, or none when the form is acceptable. */
  function ValidateRegistrationForm(form: RegistrationForm): (r: Option<string>)
  {
    if !Filled(form.username) || !Filled(form.name) || !Filled(form.password) || !Filled(form.confirmation) then
      Some("Username, name, password and password confirmation are required.")
    else if form.password != form.confirmation then Some("Passwords do not match.")
    else None
  }

  /** A missing or empty field gives the "required" message before passwords are compared;
      with every field filled, the passwords must agree; otherwise the form is accepted. */
  lemma RegistrationOutcomes(form: RegistrationForm)
    ensures ValidateRegistrationForm(form).None? <==>
      Filled(form.username) && Filled(form.name) && Filled(form.password) && Filled(form.confirmation)
      && form.password.value == form.confirmation.value
    ensures !(Filled(form.username) && Filled(form.name) && Filled(form.password) && Filled(form.confirmation)) ==>
      ValidateRegistrationForm(form) == Some("Username, name, password and password confirmation are required.")
    ensures Filled(form.username) && Filled(form.name) && Filled(form.password) && Filled(form.confirmation)
            && form.password.value != form.confirmation.value ==>
      ValidateRegistrationForm(form) == Some("Passwords do not match.")
  {
  }

  /** An empty confirmation is reported as missing, not as a mismatch. */
  lemma RequiredBeforeMismatch()
    ensures ValidateRegistrationForm(RegistrationForm(Some("amy"), Some("Amy"), Some("secret"), Some("")))
            == Some("Username, name, password and password confirmation are required.")
  {
  }
}
