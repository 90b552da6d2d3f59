/** The two tables of the contact service, `contacts` and `phone_numbers`,
    held in memory, together with the queries the handlers run against them.

    The model assumes that a `SELECT` without `ORDER BY` returns `contacts`
    ascending by its AUTO_INCREMENT key and `phone_numbers` in insertion
    order. SQL does not promise this; it is an assumption about the engine. */
module Tables {

  datatype Option<+T> = None | Some(value: T)

  /** JavaScript truthiness of a string that may be absent: `undefined`,
      `null` and `""` are falsy, every other string is truthy. */
  predicate Truthy(v: Option<string>)
  {
    v.Some? && v.value != ""
  }

  /** The JavaScript expression `v || fallback`. */
  function OrElse(v: Option<string>, fallback: string): string
  {
    if Truthy(v) then v.value else fallback
  }

  /** A row of `contacts`. */
  datatype Contact = Contact(id: nat, name: string, email: string)

  /** A row of `phone_numbers`; its own key is its position in the table. */
  datatype PhoneRow = PhoneRow(contactId: nat, number: string)

  /** Both tables and the AUTO_INCREMENT counter of `contacts`, which is the
      `insertId` the next insert receives. */
  datatype Store = Store(contacts: seq<Contact>, phones: seq<PhoneRow>, nextId: nat)

  function Ids(cs: seq<Contact>): set<nat>
  {
    set c | c in cs :: c.id
  }

  /** Contact keys appear in strictly ascending order (the primary key order). */
  predicate Ascending(cs: seq<Contact>)
  {
    forall i, j :: 0 <= i < j < |cs| ==> cs[i].id < cs[j].id
  }

  /** What every handler keeps true of the store: keys are unique and
      ascending, and no row refers to a key the counter has not yet issued. */
  predicate Valid(s: Store)
  {
    && Ascending(s.contacts)
    && (forall c :: c in s.contacts ==> c.id < s.nextId)
    && (forall p :: p in s.phones ==> p.contactId < s.nextId)
  }

  /** The first row of `SELECT * FROM contacts WHERE id = ?`, if any. */
  function Find(cs: seq<Contact>, id: nat): (r: Option<Contact>)
    ensures r.None? <==> id !in Ids(cs)
    ensures r.Some? ==> r.value in cs && r.value.id == id
  {
    if |cs| == 0 then None
    else if cs[0].id == id then Some(cs[0])
    else
      assert Ids(cs) == {cs[0].id} + Ids(cs[1..]) by {
        assert forall c :: c in cs <==> c == cs[0] || c in cs[1..];
      }
      Find(cs[1..], id)
  }

  /** With unique keys, the row `Find` returns is the only one with that key. */
  lemma FindUnique(cs: seq<Contact>, c: Contact)
    requires Ascending(cs)
    requires c in cs
    ensures Find(cs, c.id) == Some(c)
  {
  }

  /** The number of rows of `cs` whose key is `id`. */
  function Count(cs: seq<Contact>, id: nat): (n: nat)
    ensures n == 0 <==> id !in Ids(cs)
    ensures n <= |cs|
  {
    if |cs| == 0 then 0
    else
      assert Ids(cs) == {cs[0].id} + Ids(cs[1..]) by {
        assert forall c :: c in cs <==> c == cs[0] || c in cs[1..];
      }
      (if cs[0].id == id then 1 else 0) + Count(cs[1..], id)
  }

  /** With unique keys a key is carried by at most one row. */
  lemma {:induction false} CountAscending(cs: seq<Contact>, id: nat)
    requires Ascending(cs)
    ensures Count(cs, id) == if id in Ids(cs) then 1 else 0
    decreases |cs|
  {
    if |cs| > 0 {
      assert Ascending(cs[1..]);
      CountAscending(cs[1..], id);
      if cs[0].id == id {
        assert id !in Ids(cs[1..]);
      }
    }
  }

  /** `DELETE FROM contacts WHERE id = ?`: the rows that survive. */
  function Without(cs: seq<Contact>, id: nat): (r: seq<Contact>)
    ensures |r| + Count(cs, id) == |cs|
    ensures forall c :: c in r <==> c in cs && c.id != id
  {
    if |cs| == 0 then []
    else if cs[0].id == id then Without(cs[1..], id)
    else [cs[0]] + Without(cs[1..], id)
  }

  /** Removing rows keeps the survivors in their order. */
  lemma {:induction false} WithoutAscending(cs: seq<Contact>, id: nat)
    requires Ascending(cs)
    ensures Ascending(Without(cs, id))
    decreases |cs|
  {
    if |cs| > 0 {
      assert Ascending(cs[1..]);
      WithoutAscending(cs[1..], id);
      if cs[0].id != id {
        var w := Without(cs[1..], id);
        forall c | c in w
          ensures cs[0].id < c.id
        {
          var k :| 0 <= k < |cs[1..]| && cs[1..][k] == c;
          assert cs[0].id < cs[k + 1].id;
        }
        AscendingCons(cs[0], w);
      }
    }
  }

  lemma AscendingCons(x: Contact, w: seq<Contact>)
    requires Ascending(w)
    requires forall c :: c in w ==> x.id < c.id
    ensures Ascending([x] + w)
  {
    var r := [x] + w;
    forall i, j | 0 <= i < j < |r|
      ensures r[i].id < r[j].id
    {
      if i == 0 {
        assert r[j] in w;
      } else {
        assert r[i] == w[i - 1] && r[j] == w[j - 1];
      }
    }
  }

  /** `UPDATE contacts SET name = ?, email = ? WHERE id = ?`: every row with
      the key takes the new name and email, and every other row stays as it
      was, in place. */
  function SetFields(cs: seq<Contact>, id: nat, name: string, email: string): (r: seq<Contact>)
    ensures |r| == |cs|
    ensures forall i :: 0 <= i < |cs| ==> r[i].id == cs[i].id
    ensures forall i :: 0 <= i < |cs| && cs[i].id == id ==> r[i] == Contact(id, name, email)
    ensures forall i :: 0 <= i < |cs| && cs[i].id != id ==> r[i] == cs[i]
  {
    if |cs| == 0 then []
    else [if cs[0].id == id then Contact(id, name, email) else cs[0]] + SetFields(cs[1..], id, name, email)
  }

  /** The numbers `SELECT phone_number FROM phone_numbers WHERE contact_id = ?`
      returns, in row order. */
  function PhonesOf(phones: seq<PhoneRow>, id: nat): (ns: seq<string>)
    ensures |ns| <= |phones|
    ensures forall n :: n in ns <==> PhoneRow(id, n) in phones
  {
    if |phones| == 0 then []
    else (if phones[0].contactId == id then [phones[0].number] else []) + PhonesOf(phones[1..], id)
  }

  lemma {:induction false} PhonesOfAppend(a: seq<PhoneRow>, b: seq<PhoneRow>, id: nat)
    ensures PhonesOf(a + b, id) == PhonesOf(a, id) + PhonesOf(b, id)
    decreases |a|
  {
    if |a| > 0 {
      assert (a + b)[1..] == a[1..] + b;
      PhonesOfAppend(a[1..], b, id);
    } else {
      assert a + b == b;
    }
  }

  /** Every number stored for a key is among the numbers read back for it. */
  lemma {:induction false} PhonesOfMember(phones: seq<PhoneRow>, id: nat, n: string)
    requires PhoneRow(id, n) in phones
    ensures n in PhonesOf(phones, id)
    decreases |phones|
  {
    if phones[0] != PhoneRow(id, n) {
      assert PhoneRow(id, n) in phones[1..];
      PhonesOfMember(phones[1..], id, n);
    }
  }

  /** A key no phone row refers to owns no numbers. */
  lemma {:induction false} PhonesOfAbsent(phones: seq<PhoneRow>, id: nat)
    requires forall p :: p in phones ==> p.contactId != id
    ensures PhonesOf(phones, id) == []
    decreases |phones|
  {
    if |phones| > 0 {
      assert phones[0] in phones;
      assert forall p :: p in phones[1..] ==> p in phones;
      PhonesOfAbsent(phones[1..], id);
    }
  }

  /** The rows `INSERT INTO phone_numbers (contact_id, phone_number)` adds
      for a list of numbers: one per number, in list order, all owned by
      `id`. */
  function RowsFor(id: nat, numbers: seq<string>): (r: seq<PhoneRow>)
    ensures |r| == |numbers|
    ensures forall i :: 0 <= i < |numbers| ==> r[i] == PhoneRow(id, numbers[i])
  {
    if |numbers| == 0 then []
    else [PhoneRow(id, numbers[0])] + RowsFor(id, numbers[1..])
  }

  /** The rows `RowsFor` writes read back as exactly the numbers given, and
      belong to no other contact. */
  lemma {:induction false} PhonesOfRowsFor(id: nat, numbers: seq<string>, k: nat)
    ensures PhonesOf(RowsFor(id, numbers), k) == if k == id then numbers else []
    decreases |numbers|
  {
    if |numbers| > 0 {
      assert RowsFor(id, numbers) == [PhoneRow(id, numbers[0])] + RowsFor(id, numbers[1..]);
      PhonesOfRowsFor(id, numbers[1..], k);
      assert RowsFor(id, numbers)[1..] == RowsFor(id, numbers[1..]);
      if k == id {
        assert numbers == [numbers[0]] + numbers[1..];
      }
    }
  }

  lemma {:induction false} RowsForOwner(id: nat, numbers: seq<string>)
    ensures forall p :: p in RowsFor(id, numbers) ==> p.contactId == id && p.number in numbers
    decreases |numbers|
  {
    if |numbers| > 0 {
      RowsForOwner(id, numbers[1..]);
    }
  }

  /** `DELETE FROM phone_numbers WHERE contact_id = ?`: the rows that survive. */
  function WithoutOwner(phones: seq<PhoneRow>, id: nat): (r: seq<PhoneRow>)
    ensures PhonesOf(r, id) == []
    ensures forall k :: k != id ==> PhonesOf(r, k) == PhonesOf(phones, k)
    ensures forall p :: p in r <==> p in phones && p.contactId != id
  {
    if |phones| == 0 then []
    else if phones[0].contactId == id then WithoutOwner(phones[1..], id)
    else [phones[0]] + WithoutOwner(phones[1..], id)
  }

  /** `SELECT COUNT(*) FROM phone_numbers WHERE phone_number = ?` is positive. */
  predicate Taken(phones: seq<PhoneRow>, number: string)
  {
    exists i :: 0 <= i < |phones| && phones[i].number == number
  }

  /** The intended global invariant: no phone number is stored twice. */
  predicate UniqueNumbers(phones: seq<PhoneRow>)
  {
    forall i, j :: 0 <= i < j < |phones| ==> phones[i].number != phones[j].number
  }

  /** No number occurs twice in a request's list. */
  predicate Distinct(numbers: seq<string>)
  {
    forall i, j :: 0 <= i < j < |numbers| ==> numbers[i] != numbers[j]
  }
}
