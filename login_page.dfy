/**
 * The log-in form (LoginPage.js): two checks with their own error texts,
 * then the log-in request; an ok answer moves to `/`, a refusal marks both
 * fields.
 */
module LoginPage {
  import opened JsText

  const UsernameEmptyMessage: string := "Username must not be empty."
  const PasswordShortMessage: string := "Password must be at least 8 characters long."
  const NotRecognizedMessage: string := "Username/Password is not recognized."

  const MinPasswordLength: nat := 8

  /** The query of `GET /api/login/`. */
  datatype LoginQuery = LoginQuery(username: string, password: string)

  datatype Outcome =
    | NotValidated
    | Refused(query: LoginQuery)
    | LoggedIn(query: LoginQuery, route: string)

  class LoginForm {
    var username: string
    var password: string
    var usernameError: string
    var passwordError: string

    constructor ()
      ensures username == "" && password == "" && usernameError == "" && passwordError == ""
    {
      username, password, usernameError, passwordError := "", "", "", "";
    }

    predicate FieldsValid()
      reads this
    {
      username != [] && JsLength(password) >= MinPasswordLength
    }

    /**
     * `validateForm`: `usernameError` is set exactly when the username is
     * empty, `passwordError` exactly when the password is shorter than 8,
     * and the form passes exactly when neither is.
     */
    method ValidateForm() returns (ok: bool)
      modifies this
      ensures usernameError != "" <==> username == []
      ensures usernameError != "" ==> usernameError == UsernameEmptyMessage
      ensures passwordError != "" <==> JsLength(password) < MinPasswordLength
      ensures passwordError != "" ==> passwordError == PasswordShortMessage
      ensures ok <==> FieldsValid()
      ensures ok <==> usernameError == "" && passwordError == ""
      ensures username == old(username) && password == old(password)
    {
      if JsLength(username) < 1 {
        usernameError := UsernameEmptyMessage;
      } else {
        usernameError := "";
      }
      if JsLength(password) < MinPasswordLength {
        passwordError := PasswordShortMessage;
      } else {
        passwordError := "";
      }
      ok := JsLength(username) >= 1 && JsLength(password) >= MinPasswordLength;
    }

    /**
     * `handleSubmit`, given whether the log-in request would answer ok: an
     * invalid form sends nothing; the page moves to `/` only on an ok
     * answer; a refusal sets both errors to the not-recognised text.
     */
    method HandleSubmit(loginOk: bool) returns (outcome: Outcome)
      modifies this
      ensures outcome.NotValidated? <==> !old(FieldsValid())
      ensures outcome.LoggedIn? <==> old(FieldsValid()) && loginOk
      ensures !outcome.NotValidated? ==> outcome.query == LoginQuery(username, password)
      ensures outcome.LoggedIn? ==> outcome.route == "/" && usernameError == "" && passwordError == ""
      ensures outcome.Refused? ==> usernameError == NotRecognizedMessage && passwordError == NotRecognizedMessage
      ensures outcome.NotValidated? ==> (usernameError != "" <==> username == [])
      ensures outcome.NotValidated? ==> (passwordError != "" <==> JsLength(password) < MinPasswordLength)
      ensures outcome.NotValidated? ==>
                (usernameError != "" ==> usernameError == UsernameEmptyMessage)
                && (passwordError != "" ==> passwordError == PasswordShortMessage)
      ensures username == old(username) && password == old(password)
    {
      var valid := ValidateForm();
      if !valid {
        return NotValidated;
      }
      var query := LoginQuery(username, password);
      if loginOk {
        outcome := LoggedIn(query, "/");
      } else {
        usernameError := NotRecognizedMessage;
        passwordError := NotRecognizedMessage;
        outcome := Refused(query);
      }
    }
  }
}
