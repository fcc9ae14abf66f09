/**
 * The sign-up form (CreateUserPage.js): four checks, each with its own
 * error text, then an availability check against the API and, when it
 * passes, the create-user request and a move to `/home`.
 */
module CreateUserPage {
  import opened JsText

  const UsernameEmptyMessage: string := "Username must not be empty."
  const EmailEmptyMessage: string := "Email must not be empty."
  const PasswordShortMessage: string := "Password must be at least 8 characters long."
  const PasswordMismatchMessage: string := "Passwords do not match."
  const TakenMessage: string := "Username or Email is taken."

  /** The smallest password length, in UTF-16 code units, the form accepts. */
  const MinPasswordLength: nat := 8

  /** The query of `GET /api/verify-user/` and the JSON body of `POST /api/create-user`. */
  datatype CheckQuery = CheckQuery(username: string, email: string)
  datatype CreateBody = CreateBody(username: string, email: string, password: string)

  /** What a submit does: nothing (invalid form), reports the check's refusal, or creates the user and moves on. */
  datatype Outcome =
    | NotValidated
    | Refused(check: CheckQuery)
    | Submitted(check: CheckQuery, body: CreateBody, route: string)

  class SignUpForm {
    var username: string
    var email: string
    var password: string
    var confirmPassword: string
    var usernameError: string
    var emailError: string
    var passwordError: string
    var confirmPasswordError: string

    constructor ()
      ensures username == "" && email == "" && password == "" && confirmPassword == ""
      ensures usernameError == "" && emailError == "" && passwordError == "" && confirmPasswordError == ""
    {
      username, email, password, confirmPassword := "", "", "", "";
      usernameError, emailError, passwordError, confirmPasswordError := "", "", "", "";
    }

    /** All four checks of `validateForm` pass. */
    predicate FieldsValid()
      reads this
    {
      username != [] && email != [] && JsLength(password) >= MinPasswordLength && password == confirmPassword
    }

    /**
     * `validateForm`: each error field carries its own message exactly when
     * its own check fails and is cleared otherwise; the length and the
     * match of the password are checked independently; the form passes
     * exactly when no error is set.
     */
    method ValidateForm() returns (ok: bool)
      modifies this
      ensures usernameError != "" <==> username == []
      ensures usernameError != "" ==> usernameError == UsernameEmptyMessage
      ensures emailError != "" <==> email == []
      ensures emailError != "" ==> emailError == EmailEmptyMessage
      ensures passwordError != "" <==> JsLength(password) < MinPasswordLength
      ensures passwordError != "" ==> passwordError == PasswordShortMessage
      ensures confirmPasswordError != "" <==> password != confirmPassword
      ensures confirmPasswordError != "" ==> confirmPasswordError == PasswordMismatchMessage
      ensures ok <==> FieldsValid()
      ensures ok <==> usernameError == "" && emailError == "" && passwordError == "" && confirmPasswordError == ""
      ensures username == old(username) && email == old(email)
      ensures password == old(password) && confirmPassword == old(confirmPassword)
    {
      if JsLength(username) < 1 {
        usernameError := UsernameEmptyMessage;
      } else {
        usernameError := "";
      }
      if JsLength(email) < 1 {
        emailError := EmailEmptyMessage;
      } else {
        emailError := "";
      }
      if JsLength(password) < MinPasswordLength {
        passwordError := PasswordShortMessage;
      } else {
        passwordError := "";
      }
      if password != confirmPassword {
        confirmPasswordError := PasswordMismatchMessage;
      } else {
        confirmPasswordError := "";
      }
      ok := JsLength(username) >= 1 && JsLength(email) >= 1 && JsLength(password) >= MinPasswordLength
            && password == confirmPassword;
    }

    /**
     * `handleSubmit`, given whether the availability check would answer ok:
     * the check is asked only for a valid form; the user is created (and the
     * page moves to `/home`) only when it answers ok; otherwise both the
     * username and the email show that one of them is taken.
     */
    method HandleSubmit(checkOk: bool) returns (outcome: Outcome)
      modifies this
      ensures outcome.NotValidated? <==> !old(FieldsValid())
      ensures outcome.Submitted? <==> old(FieldsValid()) && checkOk
      ensures !outcome.NotValidated? ==> outcome.check == CheckQuery(username, email)
      ensures outcome.Submitted? ==>
                outcome.body == CreateBody(username, email, password) && outcome.route == "/home"
                && usernameError == "" && emailError == ""
      ensures outcome.Refused? ==> usernameError == TakenMessage && emailError == TakenMessage
      ensures username == old(username) && email == old(email)
      ensures password == old(password) && confirmPassword == old(confirmPassword)
      ensures outcome.NotValidated? ==>
                (usernameError != "" <==> username == []) && (emailError != "" <==> email == [])
      ensures outcome.NotValidated? ==>
                (usernameError != "" ==> usernameError == UsernameEmptyMessage)
                && (emailError != "" ==> emailError == EmailEmptyMessage)
      ensures passwordError != "" <==> JsLength(password) < MinPasswordLength
      ensures passwordError != "" ==> passwordError == PasswordShortMessage
      ensures confirmPasswordError != "" <==> password != confirmPassword
      ensures confirmPasswordError != "" ==> confirmPasswordError == PasswordMismatchMessage
    {
      var valid := ValidateForm();
      if !valid {
        return NotValidated;
      }
      var check := CheckQuery(username, email);
      if checkOk {
        outcome := Submitted(check, CreateBody(username, email, password), "/home");
      } else {
        usernameError := TakenMessage;
        emailError := TakenMessage;
        outcome := Refused(check);
      }
    }
  }
}
