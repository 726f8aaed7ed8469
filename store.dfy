/**
 * The student repository. The program declares it as a Spring Data
 * MongoRepository whose implementation it does not contain; here it is an
 * in-memory collection of documents in store order, with the four operations
 * the program uses (findAll, findStudentByEmail, save, delete) and a
 * counter that stands for the store's generator of fresh ids.
 */
module StudentStore {
  import opened Wrappers
  import opened StudentModel

  /** The emails of the stored records. */
  function Emails(docs: seq<Student>): set<string> {
    set d | d in docs :: d.email
  }

  /** No two stored records share an email: the invariant the service keeps. */
  predicate EmailsUnique(docs: seq<Student>) {
    forall i, j :: 0 <= i < |docs| && 0 <= j < |docs| && i != j ==> docs[i].email != docs[j].email
  }

  /** No two stored records share an id: the store's own key. */
  predicate IdsUnique(docs: seq<Student>) {
    forall i, j :: 0 <= i < |docs| && 0 <= j < |docs| && i != j ==> docs[i].id != docs[j].id
  }

  /** The position of the first record at or after `from` whose email is `email`. */
  function FindEmailFrom(docs: seq<Student>, email: string, from: nat): (r: Option<nat>)
    requires from <= |docs|
    decreases |docs| - from
    ensures r.Some? ==> from <= r.value < |docs| && docs[r.value].email == email
    ensures r.Some? ==> forall k :: from <= k < r.value ==> docs[k].email != email
    ensures r.None? ==> forall k :: from <= k < |docs| ==> docs[k].email != email
  {
    if from == |docs| then None
    else if docs[from].email == email then Some(from)
    else FindEmailFrom(docs, email, from + 1)
  }

  /** The position of the first record at or after `from` whose id is `id`. */
  function FindIdFrom(docs: seq<Student>, id: Option<Id>, from: nat): (r: Option<nat>)
    requires from <= |docs|
    decreases |docs| - from
    ensures r.Some? ==> from <= r.value < |docs| && docs[r.value].id == id
    ensures r.None? ==> forall k :: from <= k < |docs| ==> docs[k].id != id
  {
    if from == |docs| then None
    else if docs[from].id == id then Some(from)
    else FindIdFrom(docs, id, from + 1)
  }

  /** findStudentByEmail: the stored record with this email, if there is one. */
  function LookupEmail(docs: seq<Student>, email: string): (r: Option<Student>)
    ensures r.Some? ==> r.value in docs && r.value.email == email
    ensures r.None? <==> email !in Emails(docs)
  {
    match FindEmailFrom(docs, email, 0)
    case Some(i) => Some(docs[i])
    case None => None
  }

  /**
   * save on a record that carries an id: the record replaces the stored one
   * with the same id, or is added when there is none.
   */
  function Upsert(docs: seq<Student>, rec: Student): (r: seq<Student>)
    requires rec.id.Some?
    ensures rec in r
    ensures forall d :: d in r ==> d == rec || d in docs
    ensures forall d :: d in docs && d.id != rec.id ==> d in r
  {
    match FindIdFrom(docs, rec.id, 0)
    case Some(i) =>
      assert docs[i := rec][i] == rec;
      assert forall k :: 0 <= k < |docs| && k != i ==> docs[i := rec][k] == docs[k];
      docs[i := rec]
    case None => docs + [rec]
  }

  /** delete(entity): removes every stored record whose id is the entity's id. */
  function RemoveById(docs: seq<Student>, id: Option<Id>): (r: seq<Student>)
    ensures forall d :: d in r <==> d in docs && d.id != id
  {
    if docs == [] then []
    else (if docs[0].id == id then [] else [docs[0]]) + RemoveById(docs[1..], id)
  }

  /** The records without the one at position i, in their order. */
  function RemoveAt(docs: seq<Student>, i: nat): (r: seq<Student>)
    requires i < |docs|
    ensures |r| == |docs| - 1
    ensures forall k :: 0 <= k < |r| ==> r[k] == if k < i then docs[k] else docs[k + 1]
  {
    docs[..i] + docs[i + 1..]
  }

  /** With unique emails, a lookup finds the one record that has the email. */
  lemma LookupUnique(docs: seq<Student>, d: Student)
    requires EmailsUnique(docs) && d in docs
    ensures LookupEmail(docs, d.email) == Some(d)
  {
    var j :| 0 <= j < |docs| && docs[j] == d;
    var i := FindEmailFrom(docs, d.email, 0).value;
    assert docs[i].email == docs[j].email;
  }

  /** Removing an id that nothing carries leaves the records as they are. */
  lemma {:induction false} RemoveAbsentId(docs: seq<Student>, id: Option<Id>)
    requires forall k :: 0 <= k < |docs| ==> docs[k].id != id
    ensures RemoveById(docs, id) == docs
  {
    if docs != [] {
      RemoveAbsentId(docs[1..], id);
      assert [docs[0]] + docs[1..] == docs;
    }
  }

  /** With unique ids, deleting the record at position i removes it and only it, keeping the order. */
  lemma {:induction false} RemoveByIdAt(docs: seq<Student>, i: nat)
    requires IdsUnique(docs) && i < |docs|
    ensures RemoveById(docs, docs[i].id) == RemoveAt(docs, i)
  {
    var id := docs[i].id;
    if i == 0 {
      RemoveAbsentId(docs[1..], id);
      assert RemoveAt(docs, 0) == docs[1..];
    } else {
      assert IdsUnique(docs[1..]);
      assert docs[1..][i - 1] == docs[i];
      RemoveByIdAt(docs[1..], i - 1);
      assert [docs[0]] + RemoveAt(docs[1..], i - 1) == RemoveAt(docs, i);
    }
  }

  /** Taking a record out keeps both keys unique, and its email is no longer stored. */
  lemma RemoveAtKeepsUnique(docs: seq<Student>, i: nat)
    requires i < |docs|
    ensures IdsUnique(docs) ==> IdsUnique(RemoveAt(docs, i))
    ensures EmailsUnique(docs) ==> EmailsUnique(RemoveAt(docs, i)) && docs[i].email !in Emails(RemoveAt(docs, i))
  {
    var r := RemoveAt(docs, i);
    if EmailsUnique(docs) {
      forall d | d in r ensures d.email != docs[i].email {
        var k :| 0 <= k < |r| && r[k] == d;
      }
    }
  }

  /** save keeps the ids unique. */
  lemma UpsertKeepsIdsUnique(docs: seq<Student>, rec: Student)
    requires rec.id.Some? && IdsUnique(docs)
    ensures IdsUnique(Upsert(docs, rec))
  {
  }

  /**
   * save keeps the emails unique as long as every stored record that has the
   * new record's email is the one it replaces.
   */
  lemma UpsertKeepsEmailsUnique(docs: seq<Student>, rec: Student)
    requires rec.id.Some? && IdsUnique(docs) && EmailsUnique(docs)
    requires forall k :: 0 <= k < |docs| && docs[k].email == rec.email ==> docs[k].id == rec.id
    ensures EmailsUnique(Upsert(docs, rec))
    ensures LookupEmail(Upsert(docs, rec), rec.email) == Some(rec)
  {
    var r := Upsert(docs, rec);
    match FindIdFrom(docs, rec.id, 0) {
      case Some(i) =>
        assert r == docs[i := rec];
        forall k | 0 <= k < |docs| && k != i ensures docs[k].email != rec.email {
        }
      case None =>
        assert r == docs + [rec];
    }
    LookupUnique(r, rec);
  }

  /** After saving a record whose email was not stored, a lookup of that email finds it. */
  lemma LookupAfterSave(docs: seq<Student>, rec: Student)
    requires rec.id.Some? && rec.email !in Emails(docs)
    ensures LookupEmail(Upsert(docs, rec), rec.email) == Some(rec)
  {
    var r := Upsert(docs, rec);
    assert LookupEmail(r, rec.email).Some?;
  }

  /** save on a record whose id is stored at position i replaces that record in place. */
  lemma UpsertExisting(docs: seq<Student>, i: nat, rec: Student)
    requires IdsUnique(docs) && i < |docs| && rec.id.Some? && docs[i].id == rec.id
    ensures Upsert(docs, rec) == docs[i := rec]
  {
    var j := FindIdFrom(docs, rec.id, 0).value;
    assert docs[j].id == docs[i].id;
  }

  /** save on a record whose id is not stored appends it. */
  lemma UpsertFresh(docs: seq<Student>, rec: Student)
    requires rec.id.Some? && forall k :: 0 <= k < |docs| ==> docs[k].id != rec.id
    ensures Upsert(docs, rec) == docs + [rec]
  {
  }

  /**
   * The repository object. Every stored record carries an id below nextId,
   * so nextId is always a fresh id, and no two records share an id.
   */
  class StudentRepository {
    var docs: seq<Student>
    var nextId: Id

    ghost predicate Valid()
      reads this
    {
      && IdsUnique(docs)
      && forall d :: d in docs ==> d.id.Some? && d.id.value < nextId
    }

    constructor ()
      ensures Valid() && docs == []
    {
      docs := [];
      nextId := 0;
    }

    /** findAll: every stored record, in store order. */
    method FindAll() returns (r: seq<Student>)
      ensures r == docs
    {
      r := docs;
    }

    /** findStudentByEmail. */
    method FindStudentByEmail(email: string) returns (r: Option<Student>)
      ensures r == LookupEmail(docs, email)
    {
      r := LookupEmail(docs, email);
    }

    /**
     * save: a record without an id is given a fresh one and added; a record
     * with an id replaces the stored record with that id, or is added.
     */
    method Save(s: Student) returns (saved: Student)
      requires Valid()
      modifies this
      ensures Valid()
      ensures saved == if s.id.Some? then s else s.(id := Some(old(nextId)))
      ensures docs == Upsert(old(docs), saved)
      ensures nextId == if saved.id.value < old(nextId) then old(nextId) else saved.id.value + 1
      ensures s.id.None? ==> docs == old(docs) + [saved]
    {
      saved := if s.id.Some? then s else s.(id := Some(nextId));
      if s.id.None? {
        UpsertFresh(docs, saved);
      }
      UpsertKeepsIdsUnique(docs, saved);
      docs := Upsert(docs, saved);
      if saved.id.value >= nextId {
        nextId := saved.id.value + 1;
      }
    }

    /** delete: removes the stored record with the entity's id, if any. */
    method Delete(s: Student)
      requires Valid()
      modifies this
      ensures Valid() && nextId == old(nextId)
      ensures docs == RemoveById(old(docs), s.id)
    {
      match FindIdFrom(docs, s.id, 0) {
        case Some(i) =>
          RemoveByIdAt(docs, i);
          RemoveAtKeepsUnique(docs, i);
        case None =>
          RemoveAbsentId(docs, s.id);
      }
      docs := RemoveById(docs, s.id);
    }
  }
}
