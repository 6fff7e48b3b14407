# Voter workflow model

A Dafny model of the voter service of a small election back end
(`VoterService`). The service validates a voter's input, then creates,
reads, updates, deletes and lists voters in a repository keyed by a numeric
id, with a secondary lookup by email and password hashing on the way in.

The model is functional. The repository is a `map<Id, Voter>` and every
operation takes the store. The mutating operations (`Create`, `Update`,
`Delete`) return either `Err(message)`, the message of the
`GenericOutputException` the service throws, or the new store together with
what the operation returns; an error carries no store, so a failed operation
leaves the caller's store as it was. The read-only operations return just
their result: `GetById` and `GetByEmail` a `Result` without a store, and
`GetAll` a plain set of entries. Nullable Java references
(ids, input fields) are `Option` values. The password encoder is a
function-valued parameter `hash: string -> string` about which nothing is
assumed, and the id the store generates on create is a parameter `newId`
required only to be unused.

Files:

- `wrappers.dfy`: `Option`, `Result`, `Outcome`.
- `strings.dfy`: the blank test (`StringUtils.isBlank`) and the letter classes of the name pattern.
- `name_pattern.dfy`: the meaning of the name pattern `^(?i:[a-z]+ [a-z ]+)$` (ASCII-only case folding, whole-string match), its shape, and a one-pass scanner proved to decide it.
- `store.dfy`: voters, entries, the store, lookup by email, the one-voter-per-email condition, and `findAll`.
- `service.dfy`: the service operations.
- `properties.dfy`: the validator's rule table and properties relating several operations.

Points where the code's behaviour is easy to misread:

- The duplicate-email message is `"Email alreary registered"` (the string thrown at
  VoterService.java:139), not the correctly spelled constant, which is never used.
- A two-character name such as `"Al"` fails with `"Need a last name"`, not
  `"Invalid name. Min. 5 letters"`: the pattern check runs first and no string
  shorter than three characters matches it.
- Keeping at most one voter per email is a property create keeps but update does not,
  because update skips the duplicate check (`UpdateCanDuplicateEmail` exhibits a store
  where two voters end up sharing an email).

## Model

| member | source | states |
|---|---|---|
| NamePattern.AcceptedNameShape | src/main/java/br/edu/ulbra/election/voter/service/VoterService.java:153 | a name the pattern accepts starts with an ASCII letter, holds only ASCII letters and spaces, and has at least three characters |
| NamePattern.NameMatchesFromShape | src/main/java/br/edu/ulbra/election/voter/service/VoterService.java:153 | conversely, a string that starts with a letter, holds only letters and spaces and has a space before its last character is accepted |
| NamePattern.MatchName | src/main/java/br/edu/ulbra/election/voter/service/VoterService.java:153 | a single left-to-right pass returns true exactly when the whole string matches the pattern |
| VoterStore.FindByEmail | src/main/java/br/edu/ulbra/election/voter/repository/VoterRepository.java:10 | the email lookup finds nothing exactly when no stored voter has the email; otherwise it returns a stored voter with that email (the least id among several) |
| VoterStore.FindByEmailUnique | src/main/java/br/edu/ulbra/election/voter/repository/VoterRepository.java:10 | with one voter per email, looking up a stored voter's email returns that voter |
| VoterStore.EntriesCount | src/main/java/br/edu/ulbra/election/voter/service/VoterService.java:48 | `findAll` yields as many entries as there are stored voters |
| VoterService.GetByEmail | src/main/java/br/edu/ulbra/election/voter/service/VoterService.java:74-84 | fails with "Email not found" exactly on a null email; an unknown email is no error and yields nothing; a found voter is stored and has the email |
| VoterService.ValidateInput | src/main/java/br/edu/ulbra/election/voter/service/VoterService.java:132-169 | passing means a non-blank email, a name matching the pattern with at least 5 characters, and a confirmation equal to any non-blank password; on create also an unused email and a non-blank password; a failure is one of the seven validation messages and never "Email not found" |
| VoterService.ValidatePassword | src/main/java/br/edu/ulbra/election/voter/service/VoterService.java:121-130 | succeeds exactly when both fields are non-blank and equal, returning the hash of the password; otherwise "Password doesn't match" |
| VoterService.Create | src/main/java/br/edu/ulbra/election/voter/service/VoterService.java:51-59 | succeeds exactly when validation passes, else fails with its message; a used email fails with "Email alreary registered"; on success the store gains exactly the new id, holds the input email, name and the hash of the password, and keeps every other record |
| VoterService.GetById | src/main/java/br/edu/ulbra/election/voter/service/VoterService.java:61-72 | null id fails with "Invalid id", an absent id with "Voter not found", a present id returns the stored voter |
| VoterService.Update | src/main/java/br/edu/ulbra/election/voter/service/VoterService.java:86-104 | null id first, then validation errors, then "Voter not found"; on success only the record under the id changes, to the input email and name, with the hash of a non-blank new password or else the old hash |
| VoterService.Delete | src/main/java/br/edu/ulbra/election/voter/service/VoterService.java:106-119 | null id fails with "Invalid id", an absent id with "Voter not found"; otherwise exactly that key is removed, the rest is untouched, and "Voter deleted" is returned |
| VoterService.GetAll | src/main/java/br/edu/ulbra/election/voter/service/VoterService.java:45-49 | lists each stored voter exactly once, and nothing else |
| VoterProperties.ValidateInputPassesIffAllRules | src/main/java/br/edu/ulbra/election/voter/service/VoterService.java:132-169 | validation passes exactly when all seven rules of the ordered table hold |
| VoterProperties.ValidateInputFirstViolation | src/main/java/br/edu/ulbra/election/voter/service/VoterService.java:132-169 | when rule k is the first violated rule, validation fails with rule k's message |
| VoterProperties.FirstViolatedRule | src/main/java/br/edu/ulbra/election/voter/service/VoterService.java:132-169 | a failing validation reports the message of a violated rule all of whose predecessors hold |
| VoterProperties.CreatePasswordCheckCannotFail | src/main/java/br/edu/ulbra/election/voter/service/VoterService.java:121-130 | once validation for create passes, the separate password check cannot throw and yields the hash of the password |
| VoterProperties.ShortNameMessageWindow | src/main/java/br/edu/ulbra/election/voter/service/VoterService.java:153-158 | "Invalid name. Min. 5 letters" is only ever reported for names of three or four characters |
| VoterProperties.TinyNameNeedsLastName | src/main/java/br/edu/ulbra/election/voter/service/VoterService.java:153-155 | a non-blank name of one or two characters, past the email checks, fails with "Need a last name" |
| VoterProperties.NamePatternExamples | src/main/java/br/edu/ulbra/election/voter/service/VoterService.java:153 | "Al" and "Alice" fail the pattern; "A Bc" and "Alice Smith" pass it |
| VoterProperties.CreateSameEmailTwice | src/main/java/br/edu/ulbra/election/voter/service/VoterService.java:138-140 | after a successful create, a second create with the same input fails with "Email alreary registered" |
| VoterProperties.CreatePreservesUniqueEmails | src/main/java/br/edu/ulbra/election/voter/service/VoterService.java:138-140 | create keeps at most one voter per email |
| VoterProperties.UpdateCanDuplicateEmail | src/main/java/br/edu/ulbra/election/voter/service/VoterService.java:90 | update validates with the duplicate check off, so from a store with unique emails it can reach one where two voters share an email |
| VoterProperties.CreateThenGetById | src/main/java/br/edu/ulbra/election/voter/service/VoterService.java:57-58 | a created voter is read back by its new id |
| VoterProperties.CreateThenGetByEmail | src/main/java/br/edu/ulbra/election/voter/service/VoterService.java:74-84 | after a successful create, the email lookup finds the created voter, on any store |
| VoterProperties.UpdateThenGetById | src/main/java/br/edu/ulbra/election/voter/service/VoterService.java:97-102 | after an update, reading the id returns the updated voter, a blank password keeps the old hash, and every other id reads as before |
| VoterProperties.DeleteThenGetById | src/main/java/br/edu/ulbra/election/voter/service/VoterService.java:111-118 | after a delete the id reads as "Voter not found" and every other id reads as before |
| VoterProperties.GetAllAgreesWithGetById | src/main/java/br/edu/ulbra/election/voter/service/VoterService.java:45-49 | an entry is listed exactly when reading its id returns it |

## Left out

- Object mapping: the reflective copies between input, record and output shapes are written as explicit field copies, and operations return the stored entry (id, email, name, hash) rather than an output shape, whose fields are not part of this model.
- Framework wiring (service and injection annotations) and the repository interface's derived-query machinery: the repository is a map with lookup by email.
- Id generation: the store's generator is the parameter `newId` of `Create`, required to be unused.
- Password hashing: the encoder is an uninterpreted parameter.
- Concurrency, including the race between the duplicate-email check and the insert.
- Strings.IsWhitespace: covers the ASCII characters `Character.isWhitespace` accepts, not the non-ASCII whitespace characters (the Unicode space separators and U+2028, U+2029), so `isBlank` is modelled for ASCII whitespace only.
- VoterStore.FindByEmail: what the derived query does when several voters share an email is not visible; the model returns the one with the least id.
- A null `VoterInput` (a null-pointer failure in the source) is not modelled; the input record always exists.
- `String.length()` counts UTF-16 code units while Dafny strings count characters; the two agree on every name that reaches the length check, since such names are ASCII.
- VoterService.GetAll: returns a set of entries rather than a list, because the order `findAll` produces is not specified.
- The unused message constants at VoterService.java:33-34.
