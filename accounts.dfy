/** The registration form handler: validate the trimmed fields, refuse a taken email, append the user. */
module Accounts {
  import opened Options
  import opened Text

  /** A registered user as stored under the "users" key. */
  datatype User = User(username: string, email: string, password: string)

  /** Why a registration is refused. */
  datatype RegistrationError = MissingField | EmailTaken

  /** `users.some(u => u.email === email)`. */
  function HasEmail(users: seq<User>, email: string): (r: bool)
    ensures r <==> exists k :: 0 <= k < |users| && users[k].email == email
  {
    if users == [] then false
    else users[0].email == email || HasEmail(users[1..], email)
  }

  /** No two stored users share an email. */
  predicate EmailsUnique(users: seq<User>) {
    forall k, l :: 0 <= k < l < |users| ==> users[k].email != users[l].email
  }

  /**
   * The verdict of the registration handler on the raw form values: a field that is blank once trimmed
   * is reported first, then an email some stored user already has; no error means the user is added.
   */
  function CheckRegistration(users: seq<User>, username: string, email: string, password: string)
    : (r: Option<RegistrationError>)
    ensures r == Some(MissingField) <==> IsBlank(username) || IsBlank(email) || IsBlank(password)
    ensures r == Some(EmailTaken) <==>
      && !IsBlank(username) && !IsBlank(email) && !IsBlank(password)
      && exists k :: 0 <= k < |users| && users[k].email == Trim(email)
  {
    TrimSpec(username); TrimSpec(email); TrimSpec(password);
    if Trim(username) == "" || Trim(email) == "" || Trim(password) == "" then Some(MissingField)
    else if HasEmail(users, Trim(email)) then Some(EmailTaken)
    else None
  }

  /** The record the handler appends: the three trimmed fields. */
  function NewUser(username: string, email: string, password: string): (u: User)
    ensures u.email == Trim(email)
    ensures Trim(u.username) == u.username && Trim(u.email) == u.email && Trim(u.password) == u.password
  {
    TrimIdempotent(username); TrimIdempotent(email); TrimIdempotent(password);
    User(Trim(username), Trim(email), Trim(password))
  }

  /** The "users" list held in local storage. */
  class UserStore {
    var users: seq<User>

    /** A store holding `stored` (the empty list when nothing is stored yet). */
    constructor (stored: seq<User>)
      ensures users == stored
    {
      users := stored;
    }

    /** The submit handler of the registration form. */
    method Register(username: string, email: string, password: string) returns (error: Option<RegistrationError>)
      modifies this
      ensures error == CheckRegistration(old(users), username, email, password)
      ensures users == if error == None then old(users) + [NewUser(username, email, password)] else old(users)
      ensures old(EmailsUnique(users)) ==> EmailsUnique(users)
    {
      var name := Trim(username);
      var mail := Trim(email);
      var secret := Trim(password);
      if name == "" || mail == "" || secret == "" {
        return Some(MissingField);
      }
      var list := users;
      if HasEmail(list, mail) {
        return Some(EmailTaken);
      }
      RegistrationKeepsEmailsUnique(list, username, email, password);
      list := list + [User(name, mail, secret)];
      users := list;
      error := None;
    }
  }

  /** An accepted registration keeps emails unique, and leaves earlier users where they were. */
  lemma RegistrationKeepsEmailsUnique(users: seq<User>, username: string, email: string, password: string)
    requires CheckRegistration(users, username, email, password) == None
    ensures var users' := users + [NewUser(username, email, password)];
      && |users'| == |users| + 1 && users'[..|users|] == users
      && (EmailsUnique(users) ==> EmailsUnique(users'))
  {
    var u := NewUser(username, email, password);
    var users' := users + [u];
    assert !HasEmail(users, Trim(email));
    forall k | 0 <= k < |users| ensures users'[k].email != users'[|users|].email {
      assert users'[k] == users[k];
    }
  }

  /** Once registered, an email is refused as taken on every later registration, whatever the other fields. */
  lemma RegisteredEmailIsTaken(users: seq<User>, username: string, email: string, password: string,
                               username': string, password': string)
    requires CheckRegistration(users, username, email, password) == None
    requires !IsBlank(username') && !IsBlank(password')
    ensures CheckRegistration(users + [NewUser(username, email, password)], username', email, password')
         == Some(EmailTaken)
  {
    var users' := users + [NewUser(username, email, password)];
    assert users'[|users|].email == Trim(email);
  }
}
