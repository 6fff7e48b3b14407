/** Properties of the voter workflow that relate several operations, or an
    operation to an independent description of what it should do. */
module VoterProperties {
  import opened Wrappers
  import opened Strings
  import opened NamePattern
  import opened VoterStore
  import opened VoterService

  /** The validator's rules as a table, in the order they are checked. */
  const RuleCount := 7

  predicate RuleHolds(k: nat, store: Store, input: VoterInput, isUpdate: bool)
    requires k < RuleCount
  {
    match k
    case 0 => !IsBlank(input.email)
    case 1 => input.email.None? || isUpdate || !EmailTaken(store, input.email.value)
    case 2 => !IsBlank(input.name)
    case 3 => input.name.None? || NameMatches(input.name.value)
    case 4 => input.name.None? || |input.name.value| >= 5
    case 5 => IsBlank(input.password) || input.password == input.passwordConfirm
    case 6 => isUpdate || !IsBlank(input.password)
  }

  function RuleMessage(k: nat): string
    requires k < RuleCount
  {
    match k
    case 0 => InvalidEmailMessage
    case 1 => EmailRegisteredMessage
    case 2 => InvalidNameMessage
    case 3 => NeedLastNameMessage
    case 4 => ShortNameMessage
    case 5 => PasswordsDifferMessage
    case 6 => PasswordMissingMessage
  }

  /** The validator passes exactly when every rule of the table holds. */
  lemma ValidateInputPassesIffAllRules(store: Store, input: VoterInput, isUpdate: bool)
    ensures ValidateInput(store, input, isUpdate).Pass? <==>
      forall k :: 0 <= k < RuleCount ==> RuleHolds(k, store, input, isUpdate)
  {
    if ValidateInput(store, input, isUpdate).Fail? {
      var k := FirstViolatedRule(store, input, isUpdate);
      assert !RuleHolds(k, store, input, isUpdate);
    }
  }

  /** The first violated rule decides the message: every rule before it
      holds, so its message is the one thrown. */
  lemma ValidateInputFirstViolation(store: Store, input: VoterInput, isUpdate: bool, k: nat)
    requires k < RuleCount
    requires !RuleHolds(k, store, input, isUpdate)
    requires forall j :: 0 <= j < k ==> RuleHolds(j, store, input, isUpdate)
    ensures ValidateInput(store, input, isUpdate) == Fail(RuleMessage(k))
  {
    if k > 0 { assert RuleHolds(0, store, input, isUpdate); }
    if k > 1 { assert RuleHolds(1, store, input, isUpdate); }
    if k > 2 { assert RuleHolds(2, store, input, isUpdate); }
    if k > 3 { assert RuleHolds(3, store, input, isUpdate); }
    if k > 4 { assert RuleHolds(4, store, input, isUpdate); }
    if k > 5 { assert RuleHolds(5, store, input, isUpdate); }
  }

  /** The position in the table of the rule a failing validation reports. */
  function FirstViolatedRule(store: Store, input: VoterInput, isUpdate: bool): (k: nat)
    requires ValidateInput(store, input, isUpdate).Fail?
    ensures k < RuleCount
    ensures !RuleHolds(k, store, input, isUpdate)
    ensures forall j :: 0 <= j < k ==> RuleHolds(j, store, input, isUpdate)
    ensures ValidateInput(store, input, isUpdate).message == RuleMessage(k)
  {
    if !RuleHolds(0, store, input, isUpdate) then 0
    else if !RuleHolds(1, store, input, isUpdate) then 1
    else if !RuleHolds(2, store, input, isUpdate) then 2
    else if !RuleHolds(3, store, input, isUpdate) then 3
    else if !RuleHolds(4, store, input, isUpdate) then 4
    else if !RuleHolds(5, store, input, isUpdate) then 5
    else 6
  }

  /** After the validator passes on create, `validatePassword` cannot throw:
      its checks are implied by the validator's password rules. */
  lemma CreatePasswordCheckCannotFail(store: Store, input: VoterInput, hash: Hasher)
    requires ValidateInput(store, input, false).Pass?
    ensures ValidatePassword(input.password, input.passwordConfirm, hash) == Ok(hash(input.password.value))
  {
  }

  /** "Min. 5 letters" can only be reported for names of three or four
      characters: shorter names never match the pattern. */
  lemma ShortNameMessageWindow(store: Store, input: VoterInput, isUpdate: bool)
    requires ValidateInput(store, input, isUpdate) == Fail(ShortNameMessage)
    ensures input.name.Some? && 3 <= |input.name.value| <= 4
  {
    AcceptedNameShape(input.name.value);
  }

  /** A name of one or two non-blank characters is reported as lacking a
      last name, never as too short. */
  lemma TinyNameNeedsLastName(store: Store, input: VoterInput, isUpdate: bool)
    requires RuleHolds(0, store, input, isUpdate) && RuleHolds(1, store, input, isUpdate)
    requires input.name.Some? && 1 <= |input.name.value| <= 2 && !IsBlank(input.name)
    ensures ValidateInput(store, input, isUpdate) == Fail(NeedLastNameMessage)
  {
  }

  /** The pattern on sample names: a single word fails, a first and last
      name passes, and "A Bc" passes the pattern although it is too short. */
  lemma NamePatternExamples()
    ensures !NameMatches("Al")
    ensures !NameMatches("Alice")
    ensures NameMatches("A Bc")
    ensures NameMatches("Alice Smith")
  {
    assert IsSplit("A Bc", 1);
    assert IsSplit("Alice Smith", 5);
    forall i | 0 < i < 4
      ensures !IsSplit("Alice", i)
    {
      assert "Alice"[i] != ' ';
    }
  }

  /** After a successful create, a second create with the same input fails
      on the duplicate-email check. */
  lemma CreateSameEmailTwice(store: Store, input: VoterInput, id1: Id, id2: Id, hash: Hasher)
    requires id1 !in store
    requires Create(store, input, id1, hash).Ok?
    requires id2 !in Create(store, input, id1, hash).value.store
    ensures Create(Create(store, input, id1, hash).value.store, input, id2, hash) == Err(EmailRegisteredMessage)
  {
  }

  /** Create keeps the one-voter-per-email condition. */
  lemma CreatePreservesUniqueEmails(store: Store, input: VoterInput, newId: Id, hash: Hasher)
    requires newId !in store
    requires UniqueEmails(store)
    requires Create(store, input, newId, hash).Ok?
    ensures UniqueEmails(Create(store, input, newId, hash).value.store)
  {
  }

  /** Update does not keep the one-voter-per-email condition: it skips the
      duplicate check, so a voter can take over another voter's email. */
  lemma UpdateCanDuplicateEmail()
    ensures
      var hash := (p: string) => p;
      var store := map[1 := Voter("ana@x.org", "Ana Silva", "h1"), 2 := Voter("bia@x.org", "Bia Souza", "h2")];
      var input := VoterInput(Some("ana@x.org"), Some("Bia Souza"), None, None);
      var r := Update(store, Some(2), input, hash);
      && UniqueEmails(store)
      && r.Ok?
      && !UniqueEmails(r.value.store)
  {
    var hash := (p: string) => p;
    var store := map[1 := Voter("ana@x.org", "Ana Silva", "h1"), 2 := Voter("bia@x.org", "Bia Souza", "h2")];
    var input := VoterInput(Some("ana@x.org"), Some("Bia Souza"), None, None);
    assert "ana@x.org"[0] == 'a';
    assert "Bia Souza"[0] == 'B';
    assert IsSplit("Bia Souza", 3);
    var r := Update(store, Some(2), input, hash);
    assert r.value.store[1].email == r.value.store[2].email;
  }

  /** A created voter can be read back by its new id. */
  lemma CreateThenGetById(store: Store, input: VoterInput, newId: Id, hash: Hasher)
    requires newId !in store
    requires Create(store, input, newId, hash).Ok?
    ensures
      var reply := Create(store, input, newId, hash).value;
      GetById(reply.store, Some(newId)) == Ok(reply.out)
  {
  }

  /** A created voter is what the email lookup finds afterwards: create
      refuses a used email, so the new voter is the only one holding it. */
  lemma CreateThenGetByEmail(store: Store, input: VoterInput, newId: Id, hash: Hasher)
    requires newId !in store
    requires Create(store, input, newId, hash).Ok?
    ensures
      var reply := Create(store, input, newId, hash).value;
      GetByEmail(reply.store, input.email) == Ok(Some(reply.out))
  {
  }

  /** Update followed by a read returns the updated voter; an update with a
      blank password leaves the stored hash as it was. */
  lemma UpdateThenGetById(store: Store, id: Id, input: VoterInput, hash: Hasher)
    requires Update(store, Some(id), input, hash).Ok?
    ensures
      var reply := Update(store, Some(id), input, hash).value;
      && GetById(reply.store, Some(id)) == Ok(reply.out)
      && (IsBlank(input.password) ==> reply.out.voter.password == store[id].password)
      && (forall j :: j != id ==> GetById(reply.store, Some(j)) == GetById(store, Some(j)))
  {
  }

  /** After a delete the id is no longer found, and every other id reads as
      before. */
  lemma DeleteThenGetById(store: Store, id: Id)
    requires Delete(store, Some(id)).Ok?
    ensures
      var after := Delete(store, Some(id)).value.store;
      && GetById(after, Some(id)) == Err(VoterNotFoundMessage)
      && (forall j :: j != id ==> GetById(after, Some(j)) == GetById(store, Some(j)))
  {
  }

  /** The list holds exactly the voters that reading by id finds. */
  lemma GetAllAgreesWithGetById(store: Store, e: Entry)
    ensures e in GetAll(store) <==> GetById(store, Some(e.id)) == Ok(e)
  {
  }
}
