/**
 The invitation endpoint: it creates an account with the schema defaults unless an
 account already holds the email or the username. The new id and the fresh code
 come from the store and the code generator and are taken as parameters.
 */
module Invitation {
  import opened Outcomes
  import opened User
  import opened Store

  datatype InviteError = MissingFields | UserExists {
    function Message(): string
    {
      match this
      case MissingFields => "Email and username are required"
      case UserExists => "User already exists"
    }
  }

  /** The answer to a successful invitation. */
  datatype Invited = Invited(id: Id, email: string, username: string, referralCode: string)

  /** Some account already holds `email` or `username`. */
  predicate Taken(accounts: map<Id, Account>, email: string, username: string)
  {
    exists id :: id in accounts && (accounts[id].email == email || accounts[id].username == username)
  }

  /** No two accounts share an email, and no two share a username. */
  predicate UniqueIdentities(accounts: map<Id, Account>)
  {
    forall i, j :: i in accounts && j in accounts && i != j ==>
      accounts[i].email != accounts[j].email && accounts[i].username != accounts[j].username
  }

  /**
   `inviteUser`: missing fields and taken identities are refused without any change;
   otherwise exactly one account, with the defaults, is added under `newId`.
   */
  function InviteUser(s: Store, email: string, username: string, newId: Id, code: string, month: Month)
    : (r: (Result<Invited, InviteError>, Store))
    requires newId !in s.accounts
    requires forall id :: id in s.accounts ==> s.accounts[id].referralCode != code
    ensures email == "" || username == "" ==> r == (Err(MissingFields), s)
    ensures r.0 == Err(UserExists) <==> email != "" && username != "" && Taken(s.accounts, email, username)
    ensures r.0.Err? ==> r.1 == s
    ensures r.0.Ok? <==> email != "" && username != "" && !Taken(s.accounts, email, username)
    ensures r.0.Ok? ==>
              && r.0.value == Invited(newId, email, username, code)
              && r.1.edges == s.edges
              && r.1.accounts.Keys == s.accounts.Keys + {newId}
              && (forall id :: id in s.accounts ==> r.1.accounts[id] == s.accounts[id])
              && r.1.accounts[newId] == NewAccount(email, username, code, month)
    ensures UniqueCodes(s.accounts) ==> UniqueCodes(r.1.accounts)
    ensures UniqueIdentities(s.accounts) ==> UniqueIdentities(r.1.accounts)
  {
    if email == "" || username == "" then
      (Err(MissingFields), s)
    else if Taken(s.accounts, email, username) then
      (Err(UserExists), s)
    else
      var account := NewAccount(email, username, code, month);
      (Ok(Invited(newId, email, username, code)), s.(accounts := s.accounts[newId := account]))
  }
}
