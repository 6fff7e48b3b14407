/** The persistence side of the voter service: a keyed store of voters with
    a secondary lookup by email, standing in for the repository interface
    (`CrudRepository<Voter, Long>` plus `findByEmail`). */
module VoterStore {
  import opened Wrappers

  /** Store-assigned voter identifier (a Java `Long`). */
  type Id = int

  /** A persisted voter. The stored password is always a hash. */
  datatype Voter = Voter(email: string, name: string, password: string)

  /** A voter together with the identifier it is stored under. */
  datatype Entry = Entry(id: Id, voter: Voter)

  type Store = map<Id, Voter>

  predicate EmailTaken(store: Store, email: string) {
    exists id :: id in store && store[id].email == email
  }

  /** At most one voter per email value. */
  predicate UniqueEmails(store: Store) {
    forall a, b :: a in store && b in store && store[a].email == store[b].email ==> a == b
  }

  /** Every set of identifiers with an element has a least element. */
  lemma {:induction false} LeastIdExists(ids: set<Id>, x: Id)
    requires x in ids
    ensures exists m :: m in ids && forall j :: j in ids ==> m <= j
    decreases |ids|
  {
    var rest := ids - {x};
    if y :| y in rest {
      LeastIdExists(rest, y);
      var m :| m in rest && forall j :: j in rest ==> m <= j;
      var least := if m <= x then m else x;
      forall j | j in ids
        ensures least <= j
      {
        if j != x {
          assert j in rest;
        }
      }
    } else {
      forall j | j in ids
        ensures x <= j
      {
        assert j == x || j in rest;
      }
    }
  }

  /** `findByEmail`: a voter registered under `email`, if any. When several
      voters share the email, the one with the least identifier is chosen. */
  function FindByEmail(store: Store, email: string): (r: Option<Entry>)
    ensures r.None? <==> !EmailTaken(store, email)
    ensures r.Some? ==> r.value.id in store && store[r.value.id] == r.value.voter
    ensures r.Some? ==> r.value.voter.email == email
    ensures r.Some? ==> forall id :: id in store && store[id].email == email ==> r.value.id <= id
  {
    if !EmailTaken(store, email) then
      None
    else
      var ids := set id | id in store && store[id].email == email;
      var some :| some in store && store[some].email == email;
      LeastIdExists(ids, some);
      var m :| m in ids && forall j :: j in ids ==> m <= j;
      assert forall id :: id in store && store[id].email == email ==> id in ids;
      Some(Entry(m, store[m]))
  }

  /** Under the one-voter-per-email condition the lookup returns THE voter
      registered under the email. */
  lemma FindByEmailUnique(store: Store, id: Id)
    requires UniqueEmails(store)
    requires id in store
    ensures FindByEmail(store, store[id].email) == Some(Entry(id, store[id]))
  {
  }

  /** `findAll`, as a set of entries. */
  function Entries(store: Store): (es: set<Entry>)
    ensures forall e :: e in es <==> e.id in store && store[e.id] == e.voter
  {
    set id | id in store :: Entry(id, store[id])
  }

  /** `findAll` lists each stored voter exactly once. */
  lemma {:induction false} EntriesCount(store: Store)
    ensures |Entries(store)| == |store|
    decreases |store|
  {
    if id :| id in store {
      var rest := store - {id};
      var e := Entry(id, store[id]);
      EntriesCount(rest);
      assert Entries(store) == Entries(rest) + {e} by {
        forall f | f in Entries(store)
          ensures f in Entries(rest) + {e}
        {
          assert f == e || f.id in rest;
        }
      }
      assert e !in Entries(rest);
      assert store.Keys == rest.Keys + {id};
      assert |store| == |rest| + 1;
    } else {
      assert forall k :: k !in store.Keys;
      assert store.Keys == {};
      assert Entries(store) == {};
    }
  }
}
