/** The POST, DELETE, PUT and GET handlers of `/contacts`, each a pure
    transition from a store and a request to a status, a JSON body and the
    store the handler leaves behind. */
module Handlers {
  import opened Tables

  const CreatedMsg := "Contact created successfully"
  const DuplicateMsg := "Duplicate phone numbers are not allowed"
  const DeletedMsg := "Contact deleted successfully"
  const UpdatedMsg := "Contact updated successfully"
  const NotFoundMsg := "Contact not found"
  const FailureMsg := "An error occurred"

  /** `{ message }` on success, `{ error }` otherwise. */
  datatype Body = Message(text: string) | Error(text: string)

  datatype Reply = Reply(status: nat, body: Body, store: Store)

  /** The body of POST /contacts; `phoneNumbers` is absent when the client
      leaves it out or sends `null`. */
  datatype CreateRequest = CreateRequest(name: string, email: string, phoneNumbers: Option<seq<string>>)

  /** The body of PUT /contacts/:id; every field may be left out. */
  datatype UpdateRequest = UpdateRequest(name: Option<string>, email: Option<string>, phoneNumbers: Option<seq<string>>)

  /** One element of the GET /contacts array. */
  datatype ContactView = ContactView(id: nat, name: string, email: string, phoneNumbers: seq<string>)

  /** Some number of the request is already stored, for any contact. */
  predicate AnyTaken(phones: seq<PhoneRow>, numbers: seq<string>)
  {
    exists i :: 0 <= i < |numbers| && Taken(phones, numbers[i])
  }

  /** POST /contacts. Every number is checked against the whole
      `phone_numbers` table before anything is written; then the contact row
      is inserted under the next AUTO_INCREMENT key and one phone row per
      number is appended. A missing `phoneNumbers` makes `phoneNumbers.map`
      throw before any query, which the handler reports as 500. */
  function Create(s: Store, req: CreateRequest): (r: Reply)
    ensures r.status in {200, 400, 500}
    ensures r.status == 500 <==> req.phoneNumbers.None?
    ensures r.status == 400 <==> req.phoneNumbers.Some? && AnyTaken(s.phones, req.phoneNumbers.value)
    ensures r.status != 200 ==> r.store == s
    ensures r.status == 400 ==> r.body == Error(DuplicateMsg)
    ensures r.status == 200 ==>
      && r.body == Message(CreatedMsg)
      && r.store.nextId == s.nextId + 1
      && |r.store.contacts| == |s.contacts| + 1
      && r.store.contacts[..|s.contacts|] == s.contacts
      && r.store.contacts[|s.contacts|] == Contact(s.nextId, req.name, req.email)
      && |r.store.phones| == |s.phones| + |req.phoneNumbers.value|
      && r.store.phones[..|s.phones|] == s.phones
      && (forall i :: 0 <= i < |req.phoneNumbers.value| ==>
            r.store.phones[|s.phones| + i] == PhoneRow(s.nextId, req.phoneNumbers.value[i]))
      && PhonesOf(r.store.phones[|s.phones|..], s.nextId) == req.phoneNumbers.value
  {
    match req.phoneNumbers
    case None => Reply(500, Error(FailureMsg), s)
    case Some(numbers) =>
      if AnyTaken(s.phones, numbers) then Reply(400, Error(DuplicateMsg), s)
      else
        var id := s.nextId;
        var phones := s.phones + RowsFor(id, numbers);
        assert phones[|s.phones|..] == RowsFor(id, numbers);
        PhonesOfRowsFor(id, numbers, id);
        Reply(200, Message(CreatedMsg), Store(s.contacts + [Contact(id, req.name, req.email)], phones, id + 1))
  }

  /** A successful create keeps the store valid and files the contact under
      a key no contact row or phone row used before, growing the key set by
      exactly that key. */
  lemma CreateKeepsValid(s: Store, req: CreateRequest)
    requires Valid(s)
    requires Create(s, req).status == 200
    ensures Valid(Create(s, req).store)
    ensures s.nextId !in Ids(s.contacts)
    ensures forall p :: p in s.phones ==> p.contactId != s.nextId
    ensures Ids(Create(s, req).store.contacts) == Ids(s.contacts) + {s.nextId}
  {
    var s' := Create(s, req).store;
    var c := Contact(s.nextId, req.name, req.email);
    assert s'.contacts == s.contacts + [c];
    assert s'.phones == s.phones + RowsFor(s.nextId, req.phoneNumbers.value);
    RowsForOwner(s.nextId, req.phoneNumbers.value);
    forall i, j | 0 <= i < j < |s'.contacts|
      ensures s'.contacts[i].id < s'.contacts[j].id
    {
      if j == |s.contacts| {
        assert s'.contacts[i] in s.contacts;
      }
    }
    assert forall x :: x in s'.contacts <==> x in s.contacts || x == c;
  }

  /** After a successful create the new key finds the new contact with the
      given name and email, and every other key finds what it found before. */
  lemma CreateContactRow(s: Store, req: CreateRequest)
    requires Valid(s)
    requires Create(s, req).status == 200
    ensures Find(Create(s, req).store.contacts, s.nextId) == Some(Contact(s.nextId, req.name, req.email))
    ensures forall k :: k != s.nextId ==> Find(Create(s, req).store.contacts, k) == Find(s.contacts, k)
  {
    var s' := Create(s, req).store;
    var c := Contact(s.nextId, req.name, req.email);
    assert s'.contacts == s.contacts + [c];
    CreateKeepsValid(s, req);
    FindUnique(s'.contacts, c);
    forall k | k != s.nextId
      ensures Find(s'.contacts, k) == Find(s.contacts, k)
    {
      FindPrefix(s.contacts, c, k);
    }
  }

  /** After a successful create the new contact's numbers read back exactly
      as supplied, in order, and every other contact's numbers are as
      before. */
  lemma CreatePhoneRows(s: Store, req: CreateRequest)
    requires Valid(s)
    requires Create(s, req).status == 200
    ensures PhonesOf(Create(s, req).store.phones, s.nextId) == req.phoneNumbers.value
    ensures forall k :: k != s.nextId ==> PhonesOf(Create(s, req).store.phones, k) == PhonesOf(s.phones, k)
  {
    var s' := Create(s, req).store;
    var id := s.nextId;
    var numbers := req.phoneNumbers.value;
    assert s'.phones == s.phones + RowsFor(id, numbers);
    forall k | k != id
      ensures PhonesOf(s'.phones, k) == PhonesOf(s.phones, k)
    {
      PhonesOfAppend(s.phones, RowsFor(id, numbers), k);
      PhonesOfRowsFor(id, numbers, k);
    }
    PhonesOfAppend(s.phones, RowsFor(id, numbers), id);
    PhonesOfRowsFor(id, numbers, id);
    CreateKeepsValid(s, req);
    PhonesOfAbsent(s.phones, id);
  }

  /** Appending a row with another key does not change what `Find` sees. */
  lemma {:induction false} FindPrefix(cs: seq<Contact>, c: Contact, k: nat)
    requires c.id != k
    ensures Find(cs + [c], k) == Find(cs, k)
    decreases |cs|
  {
    if |cs| > 0 {
      assert (cs + [c])[1..] == cs[1..] + [c];
      FindPrefix(cs[1..], c, k);
    }
  }

  /** A create that succeeds keeps numbers globally unique only when the
      request itself repeats none of its numbers: the duplicate check looks
      at the stored rows, never at the request. */
  lemma CreateKeepsUnique(s: Store, req: CreateRequest)
    requires UniqueNumbers(s.phones)
    requires Create(s, req).status == 200
    requires Distinct(req.phoneNumbers.value)
    ensures UniqueNumbers(Create(s, req).store.phones)
  {
    var numbers := req.phoneNumbers.value;
    var rows := RowsFor(s.nextId, numbers);
    var ps := Create(s, req).store.phones;
    assert ps == s.phones + rows;
    forall i, j | 0 <= i < j < |ps|
      ensures ps[i].number != ps[j].number
    {
      if j >= |s.phones| {
        var b := j - |s.phones|;
        assert ps[j] == rows[b];
        if i >= |s.phones| {
          assert ps[i] == rows[i - |s.phones|];
        }
      }
    }
  }

  /** A request that repeats a number it is the first to use passes the
      check and leaves that number stored twice. */
  lemma CreateRepeatedNumber()
    ensures var r := Create(Store([], [], 0), CreateRequest("A", "a@x.com", Some(["111", "111"])));
      r.status == 200 && !UniqueNumbers(r.store.phones)
  {
    var r := Create(Store([], [], 0), CreateRequest("A", "a@x.com", Some(["111", "111"])));
    assert r.store.phones == [PhoneRow(0, "111"), PhoneRow(0, "111")];
  }

  /** DELETE leaves the contact's phone rows behind, so a later POST that
      offers one of its numbers is refused as a duplicate. */
  lemma DeletedNumbersStayTaken(s: Store, id: nat, req: CreateRequest, n: string)
    requires PhoneRow(id, n) in s.phones
    requires req.phoneNumbers.Some? && n in req.phoneNumbers.value
    ensures Create(Delete(s, id).store, req).status == 400
  {
    var ps := Delete(s, id).store.phones;
    var numbers := req.phoneNumbers.value;
    var i :| 0 <= i < |ps| && ps[i] == PhoneRow(id, n);
    var k :| 0 <= k < |numbers| && numbers[k] == n;
    assert Taken(ps, numbers[k]);
  }

  /** DELETE /contacts/:id. The `contacts` rows with the key are deleted;
      the reply is 200 when exactly one row was affected and 404 otherwise.
      The handler issues no query against `phone_numbers`. */
  function Delete(s: Store, id: nat): (r: Reply)
    ensures r.status == 200 <==> Count(s.contacts, id) == 1
    ensures r.status != 200 ==> r.status == 404 && r.body == Error(NotFoundMsg)
    ensures r.status == 200 ==> r.body == Message(DeletedMsg)
    ensures id !in Ids(r.store.contacts)
    ensures forall c :: c in r.store.contacts <==> c in s.contacts && c.id != id
    ensures r.store.phones == s.phones && r.store.nextId == s.nextId
  {
    var kept := Without(s.contacts, id);
    var affected := |s.contacts| - |kept|;
    if affected == 1 then Reply(200, Message(DeletedMsg), s.(contacts := kept))
    else Reply(404, Error(NotFoundMsg), s.(contacts := kept))
  }

  /** On a valid store: 404 exactly when no contact has the key, and then
      nothing changes; otherwise exactly that contact is gone and every
      other contact is found as before. */
  lemma DeleteOutcome(s: Store, id: nat)
    requires Valid(s)
    ensures var r := Delete(s, id);
      && (r.status == 404 <==> id !in Ids(s.contacts))
      && (r.status == 404 ==> r.store == s)
      && (r.status == 200 ==> Ids(r.store.contacts) == Ids(s.contacts) - {id})
      && Valid(r.store)
      && (forall k :: k != id ==> Find(r.store.contacts, k) == Find(s.contacts, k))
  {
    var r := Delete(s, id);
    CountAscending(s.contacts, id);
    WithoutAscending(s.contacts, id);
    if id !in Ids(s.contacts) {
      WithoutNothing(s.contacts, id);
    }
    assert Ids(r.store.contacts) == Ids(s.contacts) - {id};
    forall k | k != id
      ensures Find(r.store.contacts, k) == Find(s.contacts, k)
    {
      if k in Ids(s.contacts) {
        var c := Find(s.contacts, k).value;
        FindUnique(s.contacts, c);
        FindUnique(r.store.contacts, c);
      }
    }
  }

  lemma {:induction false} WithoutNothing(cs: seq<Contact>, id: nat)
    requires id !in Ids(cs)
    ensures Without(cs, id) == cs
    decreases |cs|
  {
    if |cs| > 0 {
      assert cs[0] in cs;
      assert Ids(cs[1..]) <= Ids(cs) by {
        assert forall c :: c in cs[1..] ==> c in cs;
      }
      WithoutNothing(cs[1..], id);
      assert cs == [cs[0]] + cs[1..];
    }
  }

  /** The phone numbers PUT writes: the supplied list when it is present
      and non-empty, the stored ones otherwise. */
  function NewNumbers(supplied: Option<seq<string>>, stored: seq<string>): seq<string>
  {
    if supplied.Some? && |supplied.value| > 0 then supplied.value else stored
  }

  /** PUT /contacts/:id. 404 when `SELECT` finds no row; otherwise name and
      email fall back to the stored values when the supplied ones are falsy,
      and the contact's phone rows are deleted and re-inserted only when a
      non-empty list is supplied. No duplicate check is made. */
  function Update(s: Store, id: nat, req: UpdateRequest): (r: Reply)
    ensures r.status == 404 <==> id !in Ids(s.contacts)
    ensures r.status != 404 ==> r.status == 200 && r.body == Message(UpdatedMsg)
    ensures r.status == 404 ==> r.store == s && r.body == Error(NotFoundMsg)
    ensures Ids(r.store.contacts) == Ids(s.contacts) && r.store.nextId == s.nextId
  {
    match Find(s.contacts, id)
    case None => Reply(404, Error(NotFoundMsg), s)
    case Some(existing) =>
      var name := OrElse(req.name, existing.name);
      var email := OrElse(req.email, existing.email);
      var contacts := SetFields(s.contacts, id, name, email);
      var phones :=
        if req.phoneNumbers.Some? && |req.phoneNumbers.value| > 0
        then WithoutOwner(s.phones, id) + RowsFor(id, req.phoneNumbers.value)
        else s.phones;
      SetFieldsIds(s.contacts, id, name, email);
      Reply(200, Message(UpdatedMsg), Store(contacts, phones, s.nextId))
  }

  lemma SetFieldsIds(cs: seq<Contact>, id: nat, name: string, email: string)
    ensures Ids(SetFields(cs, id, name, email)) == Ids(cs)
  {
    var r := SetFields(cs, id, name, email);
    forall k | k in Ids(cs)
      ensures k in Ids(r)
    {
      var i :| 0 <= i < |cs| && cs[i].id == k;
      assert r[i] in r;
    }
    forall k | k in Ids(r)
      ensures k in Ids(cs)
    {
      var i :| 0 <= i < |r| && r[i].id == k;
      assert cs[i] in cs;
    }
  }

  lemma {:induction false} SetFieldsFind(cs: seq<Contact>, id: nat, name: string, email: string, k: nat)
    ensures Find(SetFields(cs, id, name, email), k) ==
      if k == id && Find(cs, k).Some? then Some(Contact(id, name, email)) else Find(cs, k)
    decreases |cs|
  {
    if |cs| > 0 {
      SetFieldsFind(cs[1..], id, name, email, k);
    }
  }

  lemma SetFieldsAscending(cs: seq<Contact>, id: nat, name: string, email: string)
    requires Ascending(cs)
    ensures Ascending(SetFields(cs, id, name, email))
  {
  }

  /** PUT on an existing contact keeps the store valid. */
  lemma UpdateKeepsValid(s: Store, id: nat, req: UpdateRequest)
    requires Valid(s)
    ensures Valid(Update(s, id, req).store)
  {
    var r := Update(s, id, req);
    if id in Ids(s.contacts) {
      var existing := Find(s.contacts, id).value;
      var name := OrElse(req.name, existing.name);
      var email := OrElse(req.email, existing.email);
      assert r.store.contacts == SetFields(s.contacts, id, name, email);
      SetFieldsAscending(s.contacts, id, name, email);
      forall c | c in r.store.contacts
        ensures c.id < s.nextId
      {
        var i :| 0 <= i < |r.store.contacts| && r.store.contacts[i] == c;
        assert s.contacts[i] in s.contacts;
      }
      if req.phoneNumbers.Some? && |req.phoneNumbers.value| > 0 {
        RowsForOwner(id, req.phoneNumbers.value);
        assert r.store.phones == WithoutOwner(s.phones, id) + RowsFor(id, req.phoneNumbers.value);
      }
    }
  }

  /** PUT on an existing contact keeps its key and takes each supplied name
      or email that is truthy, keeping the stored one when the supplied one
      is absent or empty; no other contact's row changes. */
  lemma UpdateFields(s: Store, id: nat, req: UpdateRequest)
    requires id in Ids(s.contacts)
    ensures var existing := Find(s.contacts, id).value;
      Find(Update(s, id, req).store.contacts, id) == Some(Contact(id,
        if Truthy(req.name) then req.name.value else existing.name,
        if Truthy(req.email) then req.email.value else existing.email))
    ensures forall k :: k != id ==> Find(Update(s, id, req).store.contacts, k) == Find(s.contacts, k)
  {
    var r := Update(s, id, req);
    var existing := Find(s.contacts, id).value;
    var name := OrElse(req.name, existing.name);
    var email := OrElse(req.email, existing.email);
    assert r.store.contacts == SetFields(s.contacts, id, name, email);
    forall k
      ensures Find(r.store.contacts, k) == if k == id then Some(Contact(id, name, email)) else Find(s.contacts, k)
    {
      SetFieldsFind(s.contacts, id, name, email, k);
    }
  }

  /** PUT on an existing contact makes its numbers the supplied list when
      that list is non-empty and leaves the phone table untouched when it is
      absent or empty; no other contact's numbers change. */
  lemma UpdatePhones(s: Store, id: nat, req: UpdateRequest)
    requires id in Ids(s.contacts)
    ensures PhonesOf(Update(s, id, req).store.phones, id) == NewNumbers(req.phoneNumbers, PhonesOf(s.phones, id))
    ensures req.phoneNumbers.None? || req.phoneNumbers.value == [] ==> Update(s, id, req).store.phones == s.phones
    ensures forall k :: k != id ==> PhonesOf(Update(s, id, req).store.phones, k) == PhonesOf(s.phones, k)
  {
    var r := Update(s, id, req);
    if req.phoneNumbers.Some? && |req.phoneNumbers.value| > 0 {
      var numbers := req.phoneNumbers.value;
      var kept := WithoutOwner(s.phones, id);
      assert r.store.phones == kept + RowsFor(id, numbers);
      forall k
        ensures PhonesOf(r.store.phones, k) == if k == id then numbers else PhonesOf(s.phones, k)
      {
        PhonesOfAppend(kept, RowsFor(id, numbers), k);
        PhonesOfRowsFor(id, numbers, k);
      }
    }
  }

  /** PUT writes numbers another contact already owns without complaint,
      breaking the uniqueness that POST enforces. */
  lemma UpdateSkipsDuplicateCheck()
    ensures var s := Store([Contact(0, "A", "a@x.com"), Contact(1, "B", "b@x.com")], [PhoneRow(0, "111")], 2);
      var r := Update(s, 1, UpdateRequest(None, None, Some(["111"])));
      && UniqueNumbers(s.phones)
      && Taken(s.phones, "111")
      && r.status == 200
      && !UniqueNumbers(r.store.phones)
  {
    var s := Store([Contact(0, "A", "a@x.com"), Contact(1, "B", "b@x.com")], [PhoneRow(0, "111")], 2);
    assert Find(s.contacts, 1) == Some(Contact(1, "B", "b@x.com"));
    var r := Update(s, 1, UpdateRequest(None, None, Some(["111"])));
    assert WithoutOwner(s.phones, 1) == [PhoneRow(0, "111")];
    assert r.store.phones == [PhoneRow(0, "111"), PhoneRow(1, "111")];
    assert r.store.phones[0].number == r.store.phones[1].number;
    assert s.phones[0].number == "111";
  }

  /** One contact as GET /contacts reports it. */
  function View(c: Contact, phones: seq<PhoneRow>): ContactView
  {
    ContactView(c.id, c.name, c.email, PhonesOf(phones, c.id))
  }

  function Views(cs: seq<Contact>, phones: seq<PhoneRow>): seq<ContactView>
  {
    if |cs| == 0 then [] else [View(cs[0], phones)] + Views(cs[1..], phones)
  }

  /** GET /contacts: one entry per contact row, in table order, each with
      the key, name and email of its row and the numbers its phone rows
      hold. */
  function List(s: Store): (l: seq<ContactView>)
    ensures |l| == |s.contacts|
    ensures forall i :: 0 <= i < |l| ==>
      && l[i].id == s.contacts[i].id
      && l[i].name == s.contacts[i].name
      && l[i].email == s.contacts[i].email
      && l[i].phoneNumbers == PhonesOf(s.phones, s.contacts[i].id)
  {
    ViewsIndex(s.contacts, s.phones);
    Views(s.contacts, s.phones)
  }

  lemma {:induction false} ViewsIndex(cs: seq<Contact>, phones: seq<PhoneRow>)
    ensures |Views(cs, phones)| == |cs|
    ensures forall i :: 0 <= i < |cs| ==> Views(cs, phones)[i] == View(cs[i], phones)
    decreases |cs|
  {
    if |cs| > 0 {
      ViewsIndex(cs[1..], phones);
    }
  }

  /** On a valid store the list names every contact exactly once, in
      ascending key order, each with its own name, email and numbers. */
  lemma ListCoversStore(s: Store)
    requires Valid(s)
    ensures var l := List(s);
      && (forall i, j :: 0 <= i < j < |l| ==> l[i].id < l[j].id)
      && (forall c :: c in s.contacts <==> ContactView(c.id, c.name, c.email, PhonesOf(s.phones, c.id)) in l)
      && (forall v :: v in l ==> Find(s.contacts, v.id) == Some(Contact(v.id, v.name, v.email)))
  {
    var l := List(s);
    ViewsIndex(s.contacts, s.phones);
    forall c | c in s.contacts
      ensures View(c, s.phones) in l
    {
      var i :| 0 <= i < |s.contacts| && s.contacts[i] == c;
      assert l[i] == View(c, s.phones);
    }
    forall v | v in l
      ensures Find(s.contacts, v.id) == Some(Contact(v.id, v.name, v.email))
      ensures Contact(v.id, v.name, v.email) in s.contacts
    {
      var i :| 0 <= i < |l| && l[i] == v;
      FindUnique(s.contacts, s.contacts[i]);
    }
  }

  lemma {:induction false} ViewsAppend(a: seq<Contact>, b: seq<Contact>, phones: seq<PhoneRow>)
    ensures Views(a + b, phones) == Views(a, phones) + Views(b, phones)
    decreases |a|
  {
    if |a| > 0 {
      assert (a + b)[1..] == a[1..] + b;
      ViewsAppend(a[1..], b, phones);
    } else {
      assert a + b == b;
    }
  }

  lemma {:induction false} ViewsFrame(cs: seq<Contact>, p: seq<PhoneRow>, q: seq<PhoneRow>)
    requires forall c :: c in cs ==> PhonesOf(p, c.id) == PhonesOf(q, c.id)
    ensures Views(cs, p) == Views(cs, q)
    decreases |cs|
  {
    if |cs| > 0 {
      assert cs[0] in cs;
      assert forall c :: c in cs[1..] ==> c in cs;
      ViewsFrame(cs[1..], p, q);
    }
  }

  /** After a successful POST the list is the old list with the new contact
      and its numbers appended. */
  lemma ListAfterCreate(s: Store, req: CreateRequest)
    requires Valid(s)
    requires Create(s, req).status == 200
    ensures List(Create(s, req).store) ==
      List(s) + [ContactView(s.nextId, req.name, req.email, req.phoneNumbers.value)]
  {
    var s' := Create(s, req).store;
    var c := Contact(s.nextId, req.name, req.email);
    assert s'.contacts == s.contacts + [c];
    CreateListFrame(s, req);
    calc {
      List(s');
      Views(s.contacts + [c], s'.phones);
      { ViewsAppend(s.contacts, [c], s'.phones); }
      Views(s.contacts, s'.phones) + Views([c], s'.phones);
      { ViewsFrame(s.contacts, s'.phones, s.phones); }
      Views(s.contacts, s.phones) + [View(c, s'.phones)];
    }
  }

  lemma CreateListFrame(s: Store, req: CreateRequest)
    requires Valid(s)
    requires Create(s, req).status == 200
    ensures forall x :: x in s.contacts ==> PhonesOf(Create(s, req).store.phones, x.id) == PhonesOf(s.phones, x.id)
    ensures PhonesOf(Create(s, req).store.phones, s.nextId) == req.phoneNumbers.value
  {
    CreatePhoneRows(s, req);
  }

  /** The list without the entries for one key. */
  function DropId(vs: seq<ContactView>, id: nat): seq<ContactView>
  {
    if |vs| == 0 then []
    else (if vs[0].id == id then [] else [vs[0]]) + DropId(vs[1..], id)
  }

  lemma {:induction false} ViewsWithout(cs: seq<Contact>, phones: seq<PhoneRow>, id: nat)
    ensures Views(Without(cs, id), phones) == DropId(Views(cs, phones), id)
    decreases |cs|
  {
    if |cs| > 0 {
      ViewsWithout(cs[1..], phones, id);
    }
  }

  /** After DELETE the list is the old list without that key's entry. */
  lemma {:induction false} ListAfterDelete(s: Store, id: nat)
    ensures List(Delete(s, id).store) == DropId(List(s), id)
  {
    ViewsWithout(s.contacts, s.phones, id);
  }

  /** The list with the entries for `v.id` replaced by `v`. */
  function ReplaceId(vs: seq<ContactView>, v: ContactView): seq<ContactView>
  {
    if |vs| == 0 then []
    else [if vs[0].id == v.id then v else vs[0]] + ReplaceId(vs[1..], v)
  }

  lemma {:induction false} ViewsSetFields(cs: seq<Contact>, p: seq<PhoneRow>, q: seq<PhoneRow>,
                                          id: nat, name: string, email: string)
    requires forall c :: c in cs && c.id != id ==> PhonesOf(q, c.id) == PhonesOf(p, c.id)
    ensures Views(SetFields(cs, id, name, email), q) ==
      ReplaceId(Views(cs, p), ContactView(id, name, email, PhonesOf(q, id)))
    decreases |cs|
  {
    if |cs| > 0 {
      assert cs[0] in cs;
      assert forall c :: c in cs[1..] ==> c in cs;
      ViewsSetFields(cs[1..], p, q, id, name, email);
    }
  }

  /** After PUT on an existing contact the list is the old list with that
      contact's entry replaced by its updated fields and numbers. */
  lemma ListAfterUpdate(s: Store, id: nat, req: UpdateRequest)
    requires id in Ids(s.contacts)
    ensures var existing := Find(s.contacts, id).value;
      List(Update(s, id, req).store) ==
        ReplaceId(List(s), ContactView(id,
          if Truthy(req.name) then req.name.value else existing.name,
          if Truthy(req.email) then req.email.value else existing.email,
          NewNumbers(req.phoneNumbers, PhonesOf(s.phones, id))))
  {
    var existing := Find(s.contacts, id).value;
    var name := OrElse(req.name, existing.name);
    var email := OrElse(req.email, existing.email);
    var s' := Update(s, id, req).store;
    UpdatePhones(s, id, req);
    ViewsSetFields(s.contacts, s.phones, s'.phones, id, name, email);
  }
}
