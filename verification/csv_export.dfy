/** GET /contacts/export/csv: one record per contact, its numbers joined
    into a single field. The records are what the handler writes to the
    CSV formatter; the formatter's quoting and streaming are not modelled. */
module CsvExport {
  import opened Tables
  import opened Handlers

  const Separator := ", "

  /** One record written to the stream. */
  datatype CsvRecord = CsvRecord(id: nat, name: string, email: string, phoneNumbers: string)

  /** `Array.prototype.join(", ")`. */
  function JoinNumbers(ns: seq<string>): string
  {
    if |ns| == 0 then ""
    else if |ns| == 1 then ns[0]
    else ns[0] + Separator + JoinNumbers(ns[1..])
  }

  /** The position of the first comma, or `|s|` when there is none. */
  function CommaAt(s: string): (i: nat)
    ensures i <= |s|
    ensures i < |s| ==> s[i] == ','
    ensures forall j :: 0 <= j < i ==> s[j] != ','
  {
    if |s| == 0 then 0
    else if s[0] == ',' then 0
    else 1 + CommaAt(s[1..])
  }

  /** How a reader of the export takes a `phone_numbers` field apart:
      split at each comma and drop the space that follows it. */
  function SplitNumbers(s: string): seq<string>
    decreases |s|
  {
    if |s| == 0 then []
    else
      var i := CommaAt(s);
      if i == |s| then [s]
      else if i + 1 < |s| && s[i + 1] == ' ' then [s[..i]] + SplitNumbers(s[i + 2..])
      else [s[..i]] + SplitNumbers(s[i + 1..])
  }

  /** The numbers a reader can recover from a joined field: none is empty
      and none contains the comma that separates them. */
  predicate Separable(ns: seq<string>)
  {
    forall i :: 0 <= i < |ns| ==> ns[i] != "" && ',' !in ns[i]
  }

  /** Splitting undoes joining for separable numbers. */
  lemma {:induction false} SplitJoin(ns: seq<string>)
    requires Separable(ns)
    ensures SplitNumbers(JoinNumbers(ns)) == ns
    decreases |ns|
  {
    if |ns| == 1 {
      assert CommaAt(ns[0]) == |ns[0]|;
    } else if |ns| > 1 {
      var head := ns[0];
      var tail := JoinNumbers(ns[1..]);
      var s := head + Separator + tail;
      assert s[|head|] == ',';
      assert CommaAt(s) == |head|;
      assert s[..|head|] == head;
      assert s[|head| + 1] == ' ';
      assert s[|head| + 2..] == tail;
      assert Separable(ns[1..]);
      SplitJoin(ns[1..]);
      assert ns == [head] + ns[1..];
    }
  }

  function Record(c: Contact, phones: seq<PhoneRow>): CsvRecord
  {
    CsvRecord(c.id, c.name, c.email, JoinNumbers(PhonesOf(phones, c.id)))
  }

  function Records(cs: seq<Contact>, phones: seq<PhoneRow>): seq<CsvRecord>
  {
    if |cs| == 0 then [] else [Record(cs[0], phones)] + Records(cs[1..], phones)
  }

  /** GET /contacts/export/csv: one record per contact row, in table order,
      carrying the row's key, name and email and its numbers joined by
      `", "`. */
  function Export(s: Store): (r: seq<CsvRecord>)
    ensures |r| == |s.contacts|
    ensures forall i :: 0 <= i < |r| ==>
      r[i] == CsvRecord(s.contacts[i].id, s.contacts[i].name, s.contacts[i].email,
                        JoinNumbers(PhonesOf(s.phones, s.contacts[i].id)))
  {
    RecordsIndex(s.contacts, s.phones);
    Records(s.contacts, s.phones)
  }

  /** The export carries, record for record, what GET /contacts lists:
      the same key, name and email, and the listed numbers joined by ", ". */
  lemma {:induction false} ExportMatchesList(s: Store)
    ensures |Export(s)| == |List(s)|
    ensures forall i :: 0 <= i < |Export(s)| ==>
      Export(s)[i] == CsvRecord(List(s)[i].id, List(s)[i].name, List(s)[i].email, JoinNumbers(List(s)[i].phoneNumbers))
  {
    RecordsIndex(s.contacts, s.phones);
    ViewsIndex(s.contacts, s.phones);
  }

  lemma {:induction false} RecordsIndex(cs: seq<Contact>, phones: seq<PhoneRow>)
    ensures |Records(cs, phones)| == |cs|
    ensures forall i :: 0 <= i < |cs| ==> Records(cs, phones)[i] == Record(cs[i], phones)
    decreases |cs|
  {
    if |cs| > 0 {
      RecordsIndex(cs[1..], phones);
    }
  }

  /** When the stored numbers are separable, splitting each exported field
      gives back exactly the numbers GET /contacts lists for that contact. */
  lemma ExportRoundTrip(s: Store)
    requires forall p :: p in s.phones ==> p.number != "" && ',' !in p.number
    ensures |Export(s)| == |List(s)|
    ensures forall i :: 0 <= i < |Export(s)| ==> SplitNumbers(Export(s)[i].phoneNumbers) == List(s)[i].phoneNumbers
  {
    ExportMatchesList(s);
    ViewsIndex(s.contacts, s.phones);
    forall i | 0 <= i < |Export(s)|
      ensures SplitNumbers(Export(s)[i].phoneNumbers) == List(s)[i].phoneNumbers
    {
      var ns := List(s)[i].phoneNumbers;
      assert ns == PhonesOf(s.phones, s.contacts[i].id);
      forall k | 0 <= k < |ns|
        ensures ns[k] != "" && ',' !in ns[k]
      {
        assert ns[k] in ns;
        assert PhoneRow(s.contacts[i].id, ns[k]) in s.phones;
      }
      SplitJoin(ns);
    }
  }
}
