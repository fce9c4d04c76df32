/** The admin's password-change form: three checks in a fixed order before any request. */
module AdminSettings {
  import opened Wrappers
  import opened Records

  datatype PasswordForm = PasswordForm(currentPassword: string, newPassword: string, confirmPassword: string)

  const EmptyPasswordForm := PasswordForm("", "", "")

  /** The body of the change-password request. */
  datatype PasswordRequest = PasswordRequest(currentPassword: string, newPassword: string)

  datatype SettingsState = SettingsState(form: PasswordForm, message: Option<Banner>)

  predicate AllFilled(f: PasswordForm) {
    f.currentPassword != "" && f.newPassword != "" && f.confirmPassword != ""
  }

  /** The checks of `handleChangePassword`, first failure wins: an empty field, then a
      confirmation that differs, then a new password shorter than six characters. */
  function CheckPasswordChange(f: PasswordForm): (r: Result<PasswordRequest, string>)
    ensures r == Err("All fields are required") <==> !AllFilled(f)
    ensures r == Err("New passwords do not match") <==> AllFilled(f) && f.newPassword != f.confirmPassword
    ensures r == Err("Password must be at least 6 characters")
        <==> AllFilled(f) && f.newPassword == f.confirmPassword && |f.newPassword| < 6
    ensures r.Ok? <==> AllFilled(f) && f.newPassword == f.confirmPassword && |f.newPassword| >= 6
    ensures r.Ok? ==> r.value == PasswordRequest(f.currentPassword, f.newPassword)
  {
    if f.currentPassword == "" || f.newPassword == "" || f.confirmPassword == "" then
      Err("All fields are required")
    else if f.newPassword != f.confirmPassword then
      Err("New passwords do not match")
    else if |f.newPassword| < 6 then
      Err("Password must be at least 6 characters")
    else
      Ok(PasswordRequest(f.currentPassword, f.newPassword))
  }

  /** `handleChangePassword`: the request sent, if any, and the form after the reply. A success
      clears the three fields; any other reply shows the server's message or a fallback and
      keeps what was typed. */
  function ChangePassword(st: SettingsState, reply: Reply): (r: (SettingsState, Option<PasswordRequest>))
    ensures r.1.Some? <==> CheckPasswordChange(st.form).Ok?
    ensures r.1.Some? ==> r.1.value == PasswordRequest(st.form.currentPassword, st.form.newPassword)
    ensures r.1.None? ==> r.0 == st.(message := Some(Banner(ErrorBanner, CheckPasswordChange(st.form).error)))
    ensures r.1.Some? && reply.Accepted? ==>
      r.0 == SettingsState(EmptyPasswordForm, Some(Banner(SuccessBanner, "Password changed successfully!")))
    ensures r.1.Some? && !reply.Accepted? ==>
      r.0 == st.(message := Some(Banner(ErrorBanner, OrDefault(reply.message, "Error changing password"))))
  {
    match CheckPasswordChange(st.form)
    case Err(e) => (st.(message := Some(Banner(ErrorBanner, e))), None)
    case Ok(request) =>
      var next := match reply
        case Accepted => SettingsState(EmptyPasswordForm, Some(Banner(SuccessBanner, "Password changed successfully!")))
        case Refused(m) => st.(message := Some(Banner(ErrorBanner, OrDefault(m, "Error changing password"))))
        case Failed(m) => st.(message := Some(Banner(ErrorBanner, OrDefault(m, "Error changing password"))));
      (next, Some(request))
  }

  /** A request always carries a new password that was typed twice and is long enough. */
  lemma RequestIsConfirmed(st: SettingsState, reply: Reply)
    requires ChangePassword(st, reply).1.Some?
    ensures var request := ChangePassword(st, reply).1.value;
      request.newPassword == st.form.confirmPassword && |request.newPassword| >= 6
      && request.currentPassword != ""
  {
  }

  /** After a successful change the fields are empty, so submitting again sends nothing and
      reports the missing fields. */
  lemma ChangeAgainAfterSuccess(st: SettingsState, reply: Reply)
    requires CheckPasswordChange(st.form).Ok?
    ensures var (after, _) := ChangePassword(st, Accepted);
      ChangePassword(after, reply).1 == None
      && ChangePassword(after, reply).0.message == Some(Banner(ErrorBanner, "All fields are required"))
  {
  }
}
