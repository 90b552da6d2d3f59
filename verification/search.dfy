/** GET /contacts/search: a left join of `contacts` with `phone_numbers`,
    filtered by the `LIKE` condition, folded into one entry per contact key
    in order of first appearance. */
module Search {
  import opened Tables
  import opened Handlers

  /** One row of `SELECT c.*, pn.phone_number FROM contacts c LEFT JOIN
      phone_numbers pn ON c.id = pn.contact_id`; `phone` is `NULL` for a
      contact with no phone rows. */
  datatype JoinRow = JoinRow(id: nat, name: string, email: string, phone: Option<string>)

  /** The join rows of one contact: one per phone row, or a single row with
      a `NULL` phone when it owns none. */
  function RowsOfContact(c: Contact, phones: seq<PhoneRow>): (r: seq<JoinRow>)
    ensures forall row :: row in r ==>
      && row.id == c.id && row.name == c.name && row.email == c.email
      && (row.phone.Some? ==> PhoneRow(c.id, row.phone.value) in phones)
      && (row.phone.None? ==> PhonesOf(phones, c.id) == [])
    ensures forall n :: PhoneRow(c.id, n) in phones ==> JoinRow(c.id, c.name, c.email, Some(n)) in r
    ensures PhonesOf(phones, c.id) == [] ==> JoinRow(c.id, c.name, c.email, None) in r
  {
    var ns := PhonesOf(phones, c.id);
    if |ns| == 0 then [JoinRow(c.id, c.name, c.email, None)] else NumberRows(c, ns)
  }

  /** The join rows pairing a contact with each of the numbers `ns`. */
  function NumberRows(c: Contact, ns: seq<string>): (r: seq<JoinRow>)
    ensures forall row :: row in r ==>
      row.id == c.id && row.name == c.name && row.email == c.email && row.phone.Some? && row.phone.value in ns
    ensures forall n :: n in ns ==> JoinRow(c.id, c.name, c.email, Some(n)) in r
  {
    if |ns| == 0 then [] else [JoinRow(c.id, c.name, c.email, Some(ns[0]))] + NumberRows(c, ns[1..])
  }

  /** `contacts c LEFT JOIN phone_numbers pn ON c.id = pn.contact_id`,
      contact by contact in table order: every row pairs a stored contact
      with one of its stored numbers, or with `NULL` when it owns no phone
      row; and every such pair, and every contact without phone rows, has
      its row. */
  function JoinOf(cs: seq<Contact>, phones: seq<PhoneRow>): (r: seq<JoinRow>)
    ensures forall row :: row in r ==>
      && Contact(row.id, row.name, row.email) in cs
      && (row.phone.Some? ==> PhoneRow(row.id, row.phone.value) in phones)
      && (row.phone.None? ==> PhonesOf(phones, row.id) == [])
    ensures forall c, n :: c in cs && PhoneRow(c.id, n) in phones ==> JoinRow(c.id, c.name, c.email, Some(n)) in r
    ensures forall c :: c in cs && PhonesOf(phones, c.id) == [] ==> JoinRow(c.id, c.name, c.email, None) in r
  {
    if |cs| == 0 then [] else RowsOfContact(cs[0], phones) + JoinOf(cs[1..], phones)
  }

  /** The `WHERE` clause, with the match condition left abstract. */
  function Filter(rows: seq<JoinRow>, matches: JoinRow -> bool): (r: seq<JoinRow>)
    ensures forall row :: row in r <==> row in rows && matches(row)
  {
    if |rows| == 0 then []
    else (if matches(rows[0]) then [rows[0]] else []) + Filter(rows[1..], matches)
  }

  /** The position of the entry with key `id`, or `|acc|` when there is none
      (`contactsMap.has(id)` and `contactsMap.get(id)`). */
  function IndexOf(acc: seq<ContactView>, id: nat): (i: nat)
    ensures i <= |acc|
    ensures i < |acc| ==> acc[i].id == id
    ensures forall j :: 0 <= j < i ==> acc[j].id != id
  {
    if |acc| == 0 then 0
    else if acc[0].id == id then 0
    else 1 + IndexOf(acc[1..], id)
  }

  /** The first entry with a key is no later than any entry with it. */
  lemma IndexOfAt(acc: seq<ContactView>, j: nat)
    requires j < |acc|
    ensures IndexOf(acc, acc[j].id) <= j
  {
  }

  /** `if (phone_number) list.push(phone_number)`. */
  function Pushed(ns: seq<string>, phone: Option<string>): seq<string>
  {
    if Truthy(phone) then ns + [phone.value] else ns
  }

  /** One iteration of the grouping loop over a result row: the entry for
      the row's key is created when the key is new, the row's phone is added
      to that entry when it is truthy, and every other entry stays as it
      was, in place. */
  function Absorb(acc: seq<ContactView>, row: JoinRow): (r: seq<ContactView>)
    ensures |r| == |acc| + 1 <==> forall j :: 0 <= j < |acc| ==> acc[j].id != row.id
    ensures |r| == |acc| || |r| == |acc| + 1
    ensures forall j :: 0 <= j < |acc| ==> r[j].id == acc[j].id && r[j].name == acc[j].name && r[j].email == acc[j].email
    ensures forall j :: 0 <= j < |acc| && acc[j].id != row.id ==> r[j] == acc[j]
    ensures var k := IndexOf(r, row.id);
      && k < |r|
      && (k == |acc| ==> r[k].name == row.name && r[k].email == row.email)
      && r[k].phoneNumbers == (if k < |acc| then acc[k].phoneNumbers else [])
                              + (if Truthy(row.phone) then [row.phone.value] else [])
  {
    var i := IndexOf(acc, row.id);
    var entry := ContactView(row.id, row.name, row.email, Pushed([], row.phone));
    if i == |acc| then
      IndexOfAt(acc + [entry], |acc|);
      acc + [entry]
    else acc[i := acc[i].(phoneNumbers := Pushed(acc[i].phoneNumbers, row.phone))]
  }

  function GroupInto(acc: seq<ContactView>, rows: seq<JoinRow>): seq<ContactView>
    decreases |rows|
  {
    if |rows| == 0 then acc else GroupInto(Absorb(acc, rows[0]), rows[1..])
  }

  /** The grouping loop of the search handler, from an empty map. Its
      result is the reference grouping of the rows. */
  function Group(rows: seq<JoinRow>): (g: seq<ContactView>)
    ensures GroupedAs(rows, g)
  {
    GroupCorrect(rows);
    GroupInto([], rows)
  }

  /** GET /contacts/search with the `LIKE` condition given as `matches`: no
      key is reported twice, every entry is a stored contact under its own
      name and email, and every number an entry holds is a non-empty number
      stored for that contact. */
  function SearchContacts(s: Store, matches: JoinRow -> bool): (g: seq<ContactView>)
    ensures forall i, j :: 0 <= i < j < |g| ==> g[i].id != g[j].id
    ensures forall v :: v in g ==> Contact(v.id, v.name, v.email) in s.contacts
    ensures forall v, n :: v in g && n in v.phoneNumbers ==> n != "" && PhoneRow(v.id, n) in s.phones
  {
    var g := Group(Filter(JoinOf(s.contacts, s.phones), matches));
    SearchFacts(s, matches, g);
    g
  }

  lemma SearchFacts(s: Store, matches: JoinRow -> bool, g: seq<ContactView>)
    requires g == Group(Filter(JoinOf(s.contacts, s.phones), matches))
    ensures && (forall i, j :: 0 <= i < j < |g| ==> g[i].id != g[j].id)
      && (forall v :: v in g ==> Contact(v.id, v.name, v.email) in s.contacts)
      && (forall v, n :: v in g && n in v.phoneNumbers ==> n != "" && PhoneRow(v.id, n) in s.phones)
  {
    var rows := Filter(JoinOf(s.contacts, s.phones), matches);
    FirstIdsFacts(rows);
    forall v | v in g
      ensures Contact(v.id, v.name, v.email) in s.contacts
    {
      var i :| 0 <= i < |g| && g[i] == v;
      var row := FirstRow(rows, v.id).value;
      FirstRowIn(rows, v.id);
    }
    forall v, n | v in g && n in v.phoneNumbers
      ensures n != "" && PhoneRow(v.id, n) in s.phones
    {
      var i :| 0 <= i < |g| && g[i] == v;
      var row := RowPhonesSource(rows, v.id, n);
    }
  }

  lemma {:induction false} GroupIntoAppend(acc: seq<ContactView>, a: seq<JoinRow>, b: seq<JoinRow>)
    ensures GroupInto(acc, a + b) == GroupInto(GroupInto(acc, a), b)
    decreases |a|
  {
    if |a| > 0 {
      assert (a + b)[1..] == a[1..] + b;
      GroupIntoAppend(Absorb(acc, a[0]), a[1..], b);
    } else {
      assert a + b == b;
    }
  }

  // A reference description of the grouping, each part defined on the
  // rows seen so far, independently of the loop.

  function Last(rows: seq<JoinRow>): JoinRow
    requires |rows| > 0
  {
    rows[|rows| - 1]
  }

  function Init(rows: seq<JoinRow>): seq<JoinRow>
    requires |rows| > 0
  {
    rows[..|rows| - 1]
  }

  /** The distinct keys of `rows`, in order of first appearance. */
  function FirstIds(rows: seq<JoinRow>): seq<nat>
  {
    if |rows| == 0 then []
    else
      var k := FirstIds(Init(rows));
      if Last(rows).id in k then k else k + [Last(rows).id]
  }

  /** The first row with key `id`. */
  function FirstRow(rows: seq<JoinRow>, id: nat): Option<JoinRow>
  {
    if |rows| == 0 then None
    else
      var f := FirstRow(Init(rows), id);
      if f.None? && Last(rows).id == id then Some(Last(rows)) else f
  }

  /** The truthy phone values of the rows with key `id`, in row order. */
  function RowPhones(rows: seq<JoinRow>, id: nat): seq<string>
  {
    if |rows| == 0 then []
    else
      var p := RowPhones(Init(rows), id);
      if Last(rows).id == id && Truthy(Last(rows).phone) then p + [Last(rows).phone.value] else p
  }

  /** `g` is the grouping of `rows`: one entry per distinct key in order of
      first appearance, named as the key's first row, holding the key's
      truthy phone values in row order. */
  ghost predicate GroupedAs(rows: seq<JoinRow>, g: seq<ContactView>)
  {
    var ids := FirstIds(rows);
    && |g| == |ids|
    && forall i :: 0 <= i < |g| ==>
         && g[i].id == ids[i]
         && FirstRow(rows, ids[i]).Some?
         && g[i].name == FirstRow(rows, ids[i]).value.name
         && g[i].email == FirstRow(rows, ids[i]).value.email
         && g[i].phoneNumbers == RowPhones(rows, ids[i])
  }

  lemma {:induction false} FirstIdsFacts(rows: seq<JoinRow>)
    ensures forall i, j :: 0 <= i < j < |FirstIds(rows)| ==> FirstIds(rows)[i] != FirstIds(rows)[j]
    ensures forall id :: id in FirstIds(rows) <==> FirstRow(rows, id).Some?
    ensures forall id :: id !in FirstIds(rows) ==> RowPhones(rows, id) == []
    ensures forall id :: FirstRow(rows, id).Some? ==> FirstRow(rows, id).value.id == id
    ensures forall row :: row in rows ==> row.id in FirstIds(rows)
    decreases |rows|
  {
    if |rows| > 0 {
      FirstIdsFacts(Init(rows));
      assert rows == Init(rows) + [Last(rows)];
    }
  }

  lemma {:induction false} RowPhonesMember(rows: seq<JoinRow>, row: JoinRow)
    requires row in rows
    requires Truthy(row.phone)
    ensures row.phone.value in RowPhones(rows, row.id)
    decreases |rows|
  {
    if Last(rows) != row {
      assert rows == Init(rows) + [Last(rows)];
      RowPhonesMember(Init(rows), row);
    }
  }

  /** Every value `RowPhones` reports comes from a row with that key. */
  lemma {:induction false} RowPhonesSource(rows: seq<JoinRow>, id: nat, n: string) returns (row: JoinRow)
    requires n in RowPhones(rows, id)
    ensures row in rows && row.id == id && row.phone == Some(n) && n != ""
    decreases |rows|
  {
    assert rows == Init(rows) + [Last(rows)];
    if n in RowPhones(Init(rows), id) {
      row := RowPhonesSource(Init(rows), id, n);
    } else {
      row := Last(rows);
    }
  }

  /** A search whose condition holds of the join row pairing a contact with
      one of its numbers returns that contact with that number among its
      phone numbers, unless the number is the empty string. */
  lemma SearchFindsNumber(s: Store, matches: JoinRow -> bool, c: Contact, n: string)
    requires c in s.contacts
    requires PhoneRow(c.id, n) in s.phones
    requires n != ""
    requires matches(JoinRow(c.id, c.name, c.email, Some(n)))
    ensures var g := SearchContacts(s, matches);
      exists i :: 0 <= i < |g| && g[i].id == c.id && n in g[i].phoneNumbers
  {
    var row := JoinRow(c.id, c.name, c.email, Some(n));
    var rows := Filter(JoinOf(s.contacts, s.phones), matches);
    assert row in rows;
    RowPhonesMember(rows, row);
    FirstIdsFacts(rows);
    GroupCorrect(rows);
    var ids := FirstIds(rows);
    var i :| 0 <= i < |ids| && ids[i] == c.id;
    assert SearchContacts(s, matches)[i].id == c.id;
  }

  /** A contact that owns no phone row still has its one join row, with a
      `NULL` phone: the reason the query is a left join. */
  lemma JoinNullRow(cs: seq<Contact>, phones: seq<PhoneRow>, c: Contact)
    requires c in cs
    requires forall p :: p in phones ==> p.contactId != c.id
    ensures JoinRow(c.id, c.name, c.email, None) in JoinOf(cs, phones)
    ensures forall row :: row in JoinOf(cs, phones) && row.id == c.id ==> row.phone.None?
  {
    PhonesOfAbsent(phones, c.id);
  }

  /** A search whose condition holds of any join row, whatever its phone,
      returns that row's contact. */
  lemma SearchFindsContact(s: Store, matches: JoinRow -> bool, row: JoinRow)
    requires row in JoinOf(s.contacts, s.phones)
    requires matches(row)
    ensures var g := SearchContacts(s, matches);
      exists i :: 0 <= i < |g| && g[i].id == row.id
  {
    var rows := Filter(JoinOf(s.contacts, s.phones), matches);
    assert row in rows;
    FirstIdsFacts(rows);
    var ids := FirstIds(rows);
    var i :| 0 <= i < |ids| && ids[i] == row.id;
    assert SearchContacts(s, matches)[i].id == row.id;
  }

  /** A contact without phone rows whose `NULL`-phone join row satisfies the
      condition is returned with an empty list of numbers. */
  lemma SearchFindsBareContact(s: Store, matches: JoinRow -> bool, c: Contact)
    requires c in s.contacts
    requires forall p :: p in s.phones ==> p.contactId != c.id
    requires matches(JoinRow(c.id, c.name, c.email, None))
    ensures var g := SearchContacts(s, matches);
      exists i :: 0 <= i < |g| && g[i].id == c.id && g[i].phoneNumbers == []
  {
    var g := SearchContacts(s, matches);
    JoinNullRow(s.contacts, s.phones, c);
    SearchFindsContact(s, matches, JoinRow(c.id, c.name, c.email, None));
    var rows := Filter(JoinOf(s.contacts, s.phones), matches);
    var i :| 0 <= i < |g| && g[i].id == c.id;
    RowPhonesNull(rows, c.id);
    assert g[i].phoneNumbers == RowPhones(rows, FirstIds(rows)[i]);
  }

  /** A key none of whose rows carries a phone collects no numbers. */
  lemma {:induction false} RowPhonesNull(rows: seq<JoinRow>, id: nat)
    requires forall row :: row in rows && row.id == id ==> row.phone.None?
    ensures RowPhones(rows, id) == []
    decreases |rows|
  {
    if |rows| > 0 {
      assert Last(rows) in rows;
      assert forall row :: row in Init(rows) ==> row in rows;
      RowPhonesNull(Init(rows), id);
    }
  }

  /** The loop computes the reference grouping. */
  lemma {:induction false} GroupCorrect(rows: seq<JoinRow>)
    ensures GroupedAs(rows, GroupInto([], rows))
    decreases |rows|
  {
    if |rows| > 0 {
      var pre := Init(rows);
      var r := Last(rows);
      assert rows == pre + [r];
      GroupCorrect(pre);
      FirstIdsFacts(pre);
      GroupIntoAppend([], pre, [r]);
      var g := GroupInto([], pre);
      assert GroupInto([], rows) == Absorb(g, r);
      var ids := FirstIds(pre);
      var i := IndexOf(g, r.id);
      if i == |g| {
        assert r.id !in ids;
        assert FirstIds(rows) == ids + [r.id];
        var g' := Absorb(g, r);
        assert g' == g + [ContactView(r.id, r.name, r.email, Pushed([], r.phone))];
        forall j | 0 <= j < |g'|
          ensures g'[j].id == FirstIds(rows)[j]
          ensures FirstRow(rows, FirstIds(rows)[j]).Some?
          ensures g'[j].name == FirstRow(rows, FirstIds(rows)[j]).value.name
          ensures g'[j].email == FirstRow(rows, FirstIds(rows)[j]).value.email
          ensures g'[j].phoneNumbers == RowPhones(rows, FirstIds(rows)[j])
        {
          if j < |g| {
            assert ids[j] != r.id;
          }
        }
      } else {
        assert r.id in ids;
        assert FirstIds(rows) == ids;
        var g' := Absorb(g, r);
        forall j | 0 <= j < |g'|
          ensures g'[j].id == ids[j]
          ensures FirstRow(rows, ids[j]).Some?
          ensures g'[j].name == FirstRow(rows, ids[j]).value.name
          ensures g'[j].email == FirstRow(rows, ids[j]).value.email
          ensures g'[j].phoneNumbers == RowPhones(rows, ids[j])
        {
          if j != i {
            assert g[j].id != r.id;
          }
        }
      }
    }
  }

  /** On a valid store every search entry is a stored contact, under its
      own name and email, and no key is reported twice; every number an
      entry holds is stored for that contact, and the condition held of the
      join row pairing the contact with that number. */
  lemma SearchEntriesAreContacts(s: Store, matches: JoinRow -> bool)
    requires Valid(s)
    ensures var g := SearchContacts(s, matches);
      && (forall i, j :: 0 <= i < j < |g| ==> g[i].id != g[j].id)
      && (forall v :: v in g ==> Find(s.contacts, v.id) == Some(Contact(v.id, v.name, v.email)))
      && (forall v, n :: v in g && n in v.phoneNumbers ==> PhoneRow(v.id, n) in s.phones)
      && (forall v, n :: v in g && n in v.phoneNumbers ==> matches(JoinRow(v.id, v.name, v.email, Some(n))))
  {
    var rows := Filter(JoinOf(s.contacts, s.phones), matches);
    var g := SearchContacts(s, matches);
    forall v | v in g
      ensures Find(s.contacts, v.id) == Some(Contact(v.id, v.name, v.email))
    {
      FindUnique(s.contacts, Contact(v.id, v.name, v.email));
    }
    forall v, n | v in g && n in v.phoneNumbers
      ensures matches(JoinRow(v.id, v.name, v.email, Some(n)))
    {
      var i :| 0 <= i < |g| && g[i] == v;
      assert v.phoneNumbers == RowPhones(rows, FirstIds(rows)[i]);
      var row := RowPhonesSource(rows, v.id, n);
      FindUnique(s.contacts, Contact(v.id, v.name, v.email));
      FindUnique(s.contacts, Contact(row.id, row.name, row.email));
      assert row == JoinRow(v.id, v.name, v.email, Some(n));
    }
  }

  lemma {:induction false} FirstRowIn(rows: seq<JoinRow>, id: nat)
    requires FirstRow(rows, id).Some?
    ensures FirstRow(rows, id).value in rows
    decreases |rows|
  {
    if FirstRow(Init(rows), id).Some? {
      FirstRowIn(Init(rows), id);
    }
  }

  /** A search whose condition holds of every row lists the same contacts,
      in the same order and with the same numbers, as GET /contacts,
      provided no stored number is the empty string (which the search
      handler drops as falsy). */
  lemma {:induction false} SearchAllIsList(s: Store)
    requires Valid(s)
    requires forall p :: p in s.phones ==> p.number != ""
    ensures SearchContacts(s, _ => true) == List(s)
  {
    var rows := JoinOf(s.contacts, s.phones);
    FilterAll(rows);
    GroupJoin([], 0, s.contacts, s.phones);
  }

  lemma {:induction false} FilterAll(rows: seq<JoinRow>)
    ensures Filter(rows, _ => true) == rows
    decreases |rows|
  {
    if |rows| > 0 {
      FilterAll(rows[1..]);
    }
  }

  lemma {:induction false} GroupJoin(acc: seq<ContactView>, lo: nat, cs: seq<Contact>, phones: seq<PhoneRow>)
    requires Ascending(cs)
    requires forall v :: v in acc ==> v.id < lo
    requires forall c :: c in cs ==> lo <= c.id
    requires forall p :: p in phones ==> p.number != ""
    ensures GroupInto(acc, JoinOf(cs, phones)) == acc + Views(cs, phones)
    decreases |cs|
  {
    if |cs| == 0 {
      assert acc + [] == acc;
    } else {
      var c := cs[0];
      assert c in cs;
      assert forall v :: v in acc ==> v.id != c.id;
      GroupContact(acc, c, phones);
      var acc' := acc + [View(c, phones)];
      AscendingTail(cs);
      assert forall v :: v in acc' ==> v.id < c.id + 1;
      GroupJoin(acc', c.id + 1, cs[1..], phones);
      GroupJoinStep(acc, cs, phones);
    }
  }

  lemma GroupJoinStep(acc: seq<ContactView>, cs: seq<Contact>, phones: seq<PhoneRow>)
    requires |cs| > 0
    requires GroupInto(acc, RowsOfContact(cs[0], phones)) == acc + [View(cs[0], phones)]
    requires GroupInto(acc + [View(cs[0], phones)], JoinOf(cs[1..], phones))
          == acc + [View(cs[0], phones)] + Views(cs[1..], phones)
    ensures GroupInto(acc, JoinOf(cs, phones)) == acc + Views(cs, phones)
  {
    var here := RowsOfContact(cs[0], phones);
    var rest := JoinOf(cs[1..], phones);
    var v := View(cs[0], phones);
    calc {
      GroupInto(acc, JoinOf(cs, phones));
      GroupInto(acc, here + rest);
      { GroupIntoAppend(acc, here, rest); }
      GroupInto(GroupInto(acc, here), rest);
      GroupInto(acc + [v], rest);
      acc + [v] + Views(cs[1..], phones);
      { ViewsCons(acc, cs, phones); }
      acc + Views(cs, phones);
    }
  }

  lemma ViewsCons(acc: seq<ContactView>, cs: seq<Contact>, phones: seq<PhoneRow>)
    requires |cs| > 0
    ensures acc + [View(cs[0], phones)] + Views(cs[1..], phones) == acc + Views(cs, phones)
  {
    assert Views(cs, phones) == [View(cs[0], phones)] + Views(cs[1..], phones);
  }

  lemma AscendingTail(cs: seq<Contact>)
    requires Ascending(cs)
    requires |cs| > 0
    ensures Ascending(cs[1..])
    ensures forall c :: c in cs[1..] ==> cs[0].id < c.id
  {
    forall c | c in cs[1..]
      ensures cs[0].id < c.id
    {
      var k :| 0 <= k < |cs[1..]| && cs[1..][k] == c;
      assert cs[k + 1] == c;
    }
  }

  /** Folding one contact's join rows into results that do not mention it
      adds exactly its list entry. */
  lemma GroupContact(acc: seq<ContactView>, c: Contact, phones: seq<PhoneRow>)
    requires forall v :: v in acc ==> v.id != c.id
    requires forall p :: p in phones ==> p.number != ""
    ensures GroupInto(acc, RowsOfContact(c, phones)) == acc + [View(c, phones)]
  {
    var ns := PhonesOf(phones, c.id);
    IndexOfAbsent(acc, c.id);
    if |ns| == 0 {
      assert GroupInto(acc, RowsOfContact(c, phones)) == Absorb(acc, JoinRow(c.id, c.name, c.email, None));
    } else {
      forall n | n in ns
        ensures n != ""
      {
        assert PhoneRow(c.id, n) in phones;
      }
      assert ns[0] in ns;
      AbsorbFirst(acc, c, ns[0]);
      assert forall n :: n in ns[1..] ==> n in ns;
      GroupNumbers(acc, c, [ns[0]], ns[1..]);
      assert NumberRows(c, ns) == [JoinRow(c.id, c.name, c.email, Some(ns[0]))] + NumberRows(c, ns[1..]);
      assert [ns[0]] + ns[1..] == ns;
    }
  }

  lemma IndexOfAbsent(acc: seq<ContactView>, id: nat)
    requires forall v :: v in acc ==> v.id != id
    ensures IndexOf(acc, id) == |acc|
  {
    if IndexOf(acc, id) < |acc| {
      assert acc[IndexOf(acc, id)] in acc;
    }
  }

  lemma AbsorbFirst(acc: seq<ContactView>, c: Contact, n: string)
    requires forall v :: v in acc ==> v.id != c.id
    requires n != ""
    ensures Absorb(acc, JoinRow(c.id, c.name, c.email, Some(n))) == acc + [ContactView(c.id, c.name, c.email, [n])]
  {
    IndexOfAbsent(acc, c.id);
    assert Pushed([], Some(n)) == [n];
  }

  lemma AbsorbNext(acc: seq<ContactView>, c: Contact, pre: seq<string>, n: string)
    requires forall v :: v in acc ==> v.id != c.id
    requires n != ""
    ensures Absorb(acc + [ContactView(c.id, c.name, c.email, pre)], JoinRow(c.id, c.name, c.email, Some(n)))
         == acc + [ContactView(c.id, c.name, c.email, pre + [n])]
  {
    var v := ContactView(c.id, c.name, c.email, pre);
    assert (acc + [v])[|acc|] == v;
  }

  lemma {:induction false} GroupNumbers(acc: seq<ContactView>, c: Contact, pre: seq<string>, ns: seq<string>)
    requires forall v :: v in acc ==> v.id != c.id
    requires forall n :: n in ns ==> n != ""
    ensures GroupInto(acc + [ContactView(c.id, c.name, c.email, pre)], NumberRows(c, ns))
         == acc + [ContactView(c.id, c.name, c.email, pre + ns)]
    decreases |ns|
  {
    if |ns| == 0 {
      assert pre + ns == pre;
    } else {
      assert ns[0] in ns;
      GroupNumbersStep(acc, c, pre, ns);
      assert forall n :: n in ns[1..] ==> n in ns;
      GroupNumbers(acc, c, pre + [ns[0]], ns[1..]);
      ShiftHead(pre, ns);
    }
  }

  lemma GroupNumbersStep(acc: seq<ContactView>, c: Contact, pre: seq<string>, ns: seq<string>)
    requires forall v :: v in acc ==> v.id != c.id
    requires |ns| > 0 && ns[0] != ""
    ensures GroupInto(acc + [ContactView(c.id, c.name, c.email, pre)], NumberRows(c, ns))
         == GroupInto(acc + [ContactView(c.id, c.name, c.email, pre + [ns[0]])], NumberRows(c, ns[1..]))
  {
    var row := JoinRow(c.id, c.name, c.email, Some(ns[0]));
    var rows := NumberRows(c, ns);
    assert rows[0] == row;
    assert rows[1..] == NumberRows(c, ns[1..]);
    AbsorbNext(acc, c, pre, ns[0]);
  }

  lemma ShiftHead(pre: seq<string>, ns: seq<string>)
    requires |ns| > 0
    ensures (pre + [ns[0]]) + ns[1..] == pre + ns
  {
    assert ns == [ns[0]] + ns[1..];
  }
}
