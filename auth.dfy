/** `validate_credentials`: an ordered three-way check of a login against a username-to-password map. */
module Auth {
  import opened Wrappers

  const RequiredMessage := "Username and password are required"
  const InvalidMessage := "Invalid credentials"

  /** The hard-coded `CREDENTIALS` mapping of the application. */
  const DefaultCredentials: map<string, string> := map["1" := "1", "user" := "1"]

  /**
   * `(is_valid, error_message)`. The checks run in order: both fields present,
   * the username known, the password matching; the first that fails decides the
   * message. The map is only read.
   */
  function ValidateCredentials(credentials: map<string, string>, username: string, password: string): (r: (bool, Option<string>))
    ensures r.0 <==> username != "" && password != "" && username in credentials && credentials[username] == password
    ensures r.1.None? <==> r.0
    ensures r.1.Some? ==> r.1.value in {RequiredMessage, InvalidMessage}
  {
    if username == "" || password == "" then (false, Some(RequiredMessage))
    else if username !in credentials then (false, Some(InvalidMessage))
    else if credentials[username] != password then (false, Some(InvalidMessage))
    else (true, None)
  }

  /** A missing username or password is reported as such, even when the empty username is a key of the map. */
  lemma MissingFieldComesFirst(credentials: map<string, string>, username: string, password: string)
    requires username == "" || password == ""
    ensures ValidateCredentials(credentials, username, password) == (false, Some(RequiredMessage))
  {
  }

  /** With both fields present, every rejection carries the same message, whether the user is unknown or the password wrong. */
  lemma RejectionsLookAlike(credentials: map<string, string>, username: string, password: string)
    requires username != "" && password != ""
    requires username !in credentials || credentials[username] != password
    ensures ValidateCredentials(credentials, username, password) == (false, Some(InvalidMessage))
  {
  }

  /** An unknown user and a known user with a wrong password cannot be told apart by the result. */
  lemma UnknownUserIndistinguishable(credentials: map<string, string>, stranger: string, user: string, guess: string)
    requires stranger != "" && stranger !in credentials
    requires user != "" && user in credentials && guess != "" && credentials[user] != guess
    ensures ValidateCredentials(credentials, stranger, guess) == ValidateCredentials(credentials, user, guess)
  {
  }

  /** Against the built-in mapping, exactly the two (username, password) pairs it lists are accepted. */
  lemma DefaultLogins(username: string, password: string)
    ensures ValidateCredentials(DefaultCredentials, username, password).0 <==>
              (username, password) in {("1", "1"), ("user", "1")}
  {
  }
}
