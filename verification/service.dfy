/** The voter workflow: input validation followed by create, read, update,
    delete and list against the keyed store. Every operation is a pure
    function of the store it is given; a successful mutating operation
    returns the new store, and a failed one returns only the message of the
    exception the service throws, so the caller keeps the store it had. */
module VoterService {
  import opened Wrappers
  import opened Strings
  import opened NamePattern
  import opened VoterStore

  const InvalidIdMessage := "Invalid id"
  const VoterNotFoundMessage := "Voter not found"
  const EmailNotFoundMessage := "Email not found"
  const InvalidEmailMessage := "Invalid email"
  /** The message the duplicate-email check actually throws, misspelling
      included (the correctly spelled constant beside it is never used). */
  const EmailRegisteredMessage := "Email alreary registered"
  const InvalidNameMessage := "Invalid name"
  const NeedLastNameMessage := "Need a last name"
  const ShortNameMessage := "Invalid name. Min. 5 letters"
  /** Thrown by the validator when a non-blank password differs from its confirmation. */
  const PasswordsDifferMessage := "Passwords doesn't match"
  /** Thrown for a blank password on create, and by every check of `validatePassword`. */
  const PasswordMissingMessage := "Password doesn't match"
  const VoterDeletedMessage := "Voter deleted"

  /** The request shape; every field may be null. */
  datatype VoterInput = VoterInput(
    email: Option<string>,
    name: Option<string>,
    password: Option<string>,
    passwordConfirm: Option<string>)

  /** The store after a successful operation, with what the operation returns. */
  datatype Reply<T> = Reply(store: Store, out: T)

  /** The password encoder, left uninterpreted. */
  type Hasher = string -> string

  /** The messages `validateInput` can throw. */
  predicate IsValidationMessage(m: string) {
    m in {InvalidEmailMessage, EmailRegisteredMessage, InvalidNameMessage, NeedLastNameMessage,
          ShortNameMessage, PasswordsDifferMessage, PasswordMissingMessage}
  }

  /** `getByEmail`: only a null email is an error; an unknown email is not. */
  function GetByEmail(store: Store, email: Option<string>): (r: Result<Option<Entry>>)
    ensures r.Err? <==> email.None?
    ensures r.Err? ==> r.message == EmailNotFoundMessage
    ensures r.Ok? ==> (r.value.None? <==> !EmailTaken(store, email.value))
    ensures r.Ok? && r.value.Some? ==>
      && r.value.value.id in store
      && store[r.value.value.id] == r.value.value.voter
      && r.value.value.voter.email == email.value
  {
    match email
    case None => Err(EmailNotFoundMessage)
    case Some(e) => Ok(FindByEmail(store, e))
  }

  /** `validateInput`: the checks run in order and the first one violated
      decides the message. On update the duplicate-email check is skipped and
      a blank password is allowed. */
  function ValidateInput(store: Store, input: VoterInput, isUpdate: bool): (r: Outcome)
    ensures r.Pass? ==>
      && input.email.Some? && !IsBlank(input.email)
      && input.name.Some? && NameMatches(input.name.value) && |input.name.value| >= 5
      && (!IsBlank(input.password) ==> input.passwordConfirm == input.password)
    ensures r.Pass? && !isUpdate ==>
      && !EmailTaken(store, input.email.value)
      && !IsBlank(input.password)
    ensures r.Fail? ==> IsValidationMessage(r.message)
    ensures r != Fail(EmailNotFoundMessage)
  {
    if IsBlank(input.email) then
      Fail(InvalidEmailMessage)
    else
      match GetByEmail(store, input.email)
      case Err(m) => Fail(m)
      case Ok(found) =>
        if found.Some? && !isUpdate then
          Fail(EmailRegisteredMessage)
        else if IsBlank(input.name) then
          Fail(InvalidNameMessage)
        else if !NameMatches(input.name.value) then
          Fail(NeedLastNameMessage)
        else if |input.name.value| < 5 then
          Fail(ShortNameMessage)
        else if !IsBlank(input.password) then
          if input.password != input.passwordConfirm then Fail(PasswordsDifferMessage) else Pass
        else if !isUpdate then
          Fail(PasswordMissingMessage)
        else
          Pass
  }

  /** `validatePassword`: both fields present and non-blank, and equal; the
      result is the hash that gets stored. */
  function ValidatePassword(password: Option<string>, passwordConfirm: Option<string>, hash: Hasher): (r: Result<string>)
    ensures r.Ok? <==> !IsBlank(password) && !IsBlank(passwordConfirm) && password == passwordConfirm
    ensures r.Ok? ==> r.value == hash(password.value)
    ensures r.Err? ==> r.message == PasswordMissingMessage
  {
    if IsBlank(password) || IsBlank(passwordConfirm) then
      Err(PasswordMissingMessage)
    else if password != passwordConfirm then
      Err(PasswordMissingMessage)
    else
      Ok(hash(password.value))
  }

  /** `create`: validate, hash the password and store the voter under the
      fresh identifier `newId` that the store's generator hands out. */
  function Create(store: Store, input: VoterInput, newId: Id, hash: Hasher): (r: Result<Reply<Entry>>)
    requires newId !in store
    ensures r.Ok? <==> ValidateInput(store, input, false).Pass?
    ensures r.Err? ==> r.message == ValidateInput(store, input, false).message
    ensures !IsBlank(input.email) && EmailTaken(store, input.email.value) ==>
      r == Err(EmailRegisteredMessage)
    ensures r.Ok? ==>
      var v := Voter(input.email.value, input.name.value, hash(input.password.value));
      && r.value.store.Keys == store.Keys + {newId}
      && (forall id :: id in store ==> r.value.store[id] == store[id])
      && r.value.store[newId] == v
      && r.value.out == Entry(newId, v)
  {
    match ValidateInput(store, input, false)
    case Fail(m) => Err(m)
    case Pass =>
      match ValidatePassword(input.password, input.passwordConfirm, hash)
      case Err(m) => Err(m)
      case Ok(h) =>
        var v := Voter(input.email.value, input.name.value, h);
        Ok(Reply(store[newId := v], Entry(newId, v)))
  }

  /** `getById`: a null id is invalid, an unknown id is not found. */
  function GetById(store: Store, id: Option<Id>): (r: Result<Entry>)
    ensures r.Err? <==> id.None? || id.value !in store
    ensures r.Err? ==> r.message == (if id.None? then InvalidIdMessage else VoterNotFoundMessage)
    ensures r.Ok? ==> r.value.id == id.value && r.value.voter == store[id.value]
  {
    match id
    case None => Err(InvalidIdMessage)
    case Some(k) => if k in store then Ok(Entry(k, store[k])) else Err(VoterNotFoundMessage)
  }

  /** `update`: the id check, then validation, then the lookup. Email and
      name are overwritten; the password hash only when a new, non-blank
      password is given. */
  function Update(store: Store, id: Option<Id>, input: VoterInput, hash: Hasher): (r: Result<Reply<Entry>>)
    ensures id.None? ==> r == Err(InvalidIdMessage)
    ensures id.Some? && ValidateInput(store, input, true).Fail? ==>
      r == Err(ValidateInput(store, input, true).message)
    ensures id.Some? && ValidateInput(store, input, true).Pass? && id.value !in store ==>
      r == Err(VoterNotFoundMessage)
    ensures r.Ok? <==> id.Some? && id.value in store && ValidateInput(store, input, true).Pass?
    ensures r.Ok? ==>
      var k := id.value;
      var v := r.value.out.voter;
      && r.value.out.id == k
      && r.value.store == store[k := v]
      && v.email == input.email.value
      && v.name == input.name.value
      && v.password == (if IsBlank(input.password) then store[k].password else hash(input.password.value))
  {
    match id
    case None => Err(InvalidIdMessage)
    case Some(k) =>
      match ValidateInput(store, input, true)
      case Fail(m) => Err(m)
      case Pass =>
        if k !in store then
          Err(VoterNotFoundMessage)
        else
          var current := store[k];
          var password := if !IsBlank(input.password) then hash(input.password.value) else current.password;
          var v := Voter(input.email.value, input.name.value, password);
          Ok(Reply(store[k := v], Entry(k, v)))
  }

  /** `delete`: remove the voter stored under the id. */
  function Delete(store: Store, id: Option<Id>): (r: Result<Reply<string>>)
    ensures r.Err? <==> id.None? || id.value !in store
    ensures r.Err? ==> r.message == (if id.None? then InvalidIdMessage else VoterNotFoundMessage)
    ensures r.Ok? ==>
      && r.value.out == VoterDeletedMessage
      && r.value.store.Keys == store.Keys - {id.value}
      && (forall j :: j in r.value.store ==> r.value.store[j] == store[j])
  {
    match id
    case None => Err(InvalidIdMessage)
    case Some(k) =>
      if k !in store then Err(VoterNotFoundMessage) else Ok(Reply(store - {k}, VoterDeletedMessage))
  }

  /** `getAll`: every stored voter, each once. */
  function GetAll(store: Store): (r: set<Entry>)
    ensures |r| == |store|
    ensures forall e :: e in r <==> e.id in store && store[e.id] == e.voter
  {
    EntriesCount(store);
    Entries(store)
  }
}
