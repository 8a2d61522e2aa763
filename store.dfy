/** The contact store and its operations. The store is a dict from name to
    record; Python dicts keep insertion order, so the model holds the records
    in a map and the order of the keys in a sequence. The console prompts of
    each operation become its parameters, in the order they are asked, and
    the messages it prints become its outcome. */
module Store {
  import opened Wrappers
  import opened Text
  import opened Validation
  import opened Records
  import opened KeyOrder
  import opened Reports

  /** The messages of `add_contact`, one per exit. */
  datatype AddOutcome = Added | EmptyName | NameTaken | AddBadPhone | AddBadEmail

  /** The messages of `update_contact`, one per exit. */
  datatype UpdateOutcome = Updated | UpdateUnknown | UpdateBadPhone | UpdateBadEmail

  /** The messages of `delete_contact`; declining prints nothing. */
  datatype DeleteOutcome = Deleted | DeleteUnknown | Declined

  class ContactBook {
    /** The records, by name. */
    var contacts: map<string, Contact>
    /** The names in insertion order. */
    var order: seq<string>

    /** The order lists every name of the store exactly once. */
    ghost predicate Valid()
      reads this
    {
      ListsExactly(order, contacts.Keys)
    }

    /** The store of a first run, when there is no data file. */
    constructor ()
      ensures Valid()
      ensures contacts == map[] && order == []
    {
      contacts, order := map[], [];
    }

    /** A store read from the data file: its records and their key order. */
    constructor Loaded(records: map<string, Contact>, keys: seq<string>)
      requires ListsExactly(keys, records.Keys)
      ensures Valid()
      ensures contacts == records && order == keys
    {
      contacts, order := records, keys;
    }

    /** `add_contact`. The guards run in the source's order; on success
        exactly one record is added, under the stripped name, at the end of
        the order. The two timestamps are the two clock readings the source
        takes. */
    method AddContact(rawName: string, rawPhone: string, rawEmail: string, rawAddress: string,
                      rawGroup: string, createdAt: string, updatedAt: string)
      returns (outcome: AddOutcome)
      requires Valid()
      modifies this
      ensures Valid()
      ensures outcome == EmptyName <==> Strip(rawName) == []
      ensures outcome == NameTaken <==> Strip(rawName) != [] && Strip(rawName) in old(contacts)
      ensures outcome == AddBadPhone <==>
        Strip(rawName) != [] && Strip(rawName) !in old(contacts) && CleanPhone(Strip(rawPhone)).None?
      ensures outcome == AddBadEmail <==>
        Strip(rawName) != [] && Strip(rawName) !in old(contacts) && CleanPhone(Strip(rawPhone)).Some? &&
        !ValidateEmail(Strip(rawEmail))
      ensures outcome != Added ==> contacts == old(contacts) && order == old(order)
      ensures outcome == Added ==>
        && Strip(rawName) !in old(contacts)
        && order == old(order) + [Strip(rawName)]
        && contacts == old(contacts)[Strip(rawName) :=
             Contact(CleanPhone(Strip(rawPhone)).value, OrNone(Strip(rawEmail)), OrNone(Strip(rawAddress)),
                     OrElse(Strip(rawGroup), DefaultGroup), createdAt, updatedAt)]
    {
      var name := Strip(rawName);
      if name == [] {
        return EmptyName;
      }
      if name in contacts {
        return NameTaken;
      }
      var phone := CleanPhone(Strip(rawPhone));
      if phone.None? {
        return AddBadPhone;
      }
      var email := Strip(rawEmail);
      if !ValidateEmail(email) {
        return AddBadEmail;
      }
      var address := Strip(rawAddress);
      var group := OrElse(Strip(rawGroup), DefaultGroup);
      var record := Contact(phone.value, OrNone(email), OrNone(address), group, createdAt, updatedAt);
      contacts := contacts[name := record];
      order := order + [name];
      outcome := Added;
    }

    /** `update_contact`. Blank inputs keep the old value. The phone is
        stored before the email is checked, so a rejected email leaves an
        accepted new phone in place and `updatedAt` as it was. Group and
        creation time never change, and neither does any other record. */
    method UpdateContact(rawName: string, rawPhone: string, rawEmail: string, rawAddress: string,
                         now: string)
      returns (outcome: UpdateOutcome)
      requires Valid()
      modifies this
      ensures Valid() && order == old(order) && contacts.Keys == old(contacts).Keys
      ensures outcome == UpdateUnknown <==> Strip(rawName) !in old(contacts)
      ensures outcome == UpdateBadPhone <==> Strip(rawName) in old(contacts) && !PhonePasses(rawPhone)
      ensures outcome == UpdateBadEmail <==>
        Strip(rawName) in old(contacts) && PhonePasses(rawPhone) &&
        Strip(rawEmail) != [] && !ValidateEmail(Strip(rawEmail))
      ensures outcome == UpdateUnknown || outcome == UpdateBadPhone ==> contacts == old(contacts)
      ensures outcome == UpdateBadEmail ==>
        var was := old(contacts)[Strip(rawName)];
        contacts == old(contacts)[Strip(rawName) := was.(phone := RevisedPhone(was.phone, rawPhone))]
      ensures outcome == Updated ==>
        var was := old(contacts)[Strip(rawName)];
        contacts == old(contacts)[Strip(rawName) :=
          was.(phone := RevisedPhone(was.phone, rawPhone), email := Revised(was.email, rawEmail),
               address := Revised(was.address, rawAddress), updatedAt := now)]
    {
      var name := Strip(rawName);
      if name !in contacts {
        return UpdateUnknown;
      }
      ghost var was := contacts[name];
      var record := contacts[name];
      var phone := Strip(rawPhone);
      if phone != [] {
        var cleaned := CleanPhone(phone);
        if cleaned.None? {
          return UpdateBadPhone;
        }
        record := record.(phone := cleaned.value);
        contacts := contacts[name := record];
      }
      assert record == was.(phone := RevisedPhone(was.phone, rawPhone));
      var email := Strip(rawEmail);
      if email != [] {
        if !ValidateEmail(email) {
          assert contacts == old(contacts)[name := record];
          return UpdateBadEmail;
        }
        record := record.(email := Some(email));
      }
      var address := Strip(rawAddress);
      if address != [] {
        record := record.(address := Some(address));
      }
      record := record.(updatedAt := now);
      contacts := contacts[name := record];
      assert contacts.Keys == old(contacts).Keys;
      outcome := Updated;
    }

    /** `delete_contact`. The record goes only when the name is present and
        the confirmation, lower-cased but not stripped, is `y`; the other
        names keep their records and their order. */
    method DeleteContact(rawName: string, rawConfirm: string) returns (outcome: DeleteOutcome)
      requires Valid()
      modifies this
      ensures Valid()
      ensures outcome == DeleteUnknown <==> Strip(rawName) !in old(contacts)
      ensures outcome == Deleted <==>
        Strip(rawName) in old(contacts) && (rawConfirm == "y" || rawConfirm == "Y")
      ensures outcome == Deleted ==>
        contacts == old(contacts) - {Strip(rawName)} && order == Without(old(order), Strip(rawName))
      ensures outcome != Deleted ==> contacts == old(contacts) && order == old(order)
    {
      var name := Strip(rawName);
      if name !in contacts {
        return DeleteUnknown;
      }
      var confirm := Lower(rawConfirm);
      LowerIsY(rawConfirm);
      if confirm == "y" {
        WithoutDistinct(order, name);
        contacts := contacts - {name};
        order := Without(order, name);
        forall k | 0 <= k < |order| ensures order[k] in contacts {
          assert order[k] in order;
        }
        outcome := Deleted;
      } else {
        outcome := Declined;
      }
    }

    /** `search_contact`: the names, in store order, whose lower-cased form
        contains the lower-cased (unstripped) term, and whether there was
        any. */
    method SearchContact(rawTerm: string) returns (matches: seq<string>, found: bool)
      requires Valid()
      ensures matches == MatchingNames(order, Lower(rawTerm))
      ensures forall n :: n in matches <==> n in contacts && IsSubstring(Lower(rawTerm), Lower(n))
      ensures Distinct(matches)
      ensures found <==> matches != []
    {
      var term := Lower(rawTerm);
      matches, found := [], false;
      for i := 0 to |order|
        invariant matches == MatchingNames(order[..i], term)
        invariant found <==> matches != []
      {
        var name := order[i];
        assert order[..i + 1][..i] == order[..i];
        if Contains(Lower(name), term) {
          found := true;
          matches := matches + [name];
        }
      }
      assert order[..|order|] == order;
      MatchingNamesMembers(order, term);
      MatchingNamesDistinct(order, term);
    }

    /** `show_statistics`: the total, and the `groups` dict built by one pass
        over the records. Every count is the number of records with that
        group, and the counts add up to the total. */
    method ShowStatistics() returns (total: nat, tally: GroupTally)
      requires Valid()
      ensures total == |contacts|
      ensures tally == Tally(order, contacts)
      ensures forall g :: g in tally.counts <==> g in tally.groups
      ensures Distinct(tally.groups)
      ensures forall g :: g in tally.counts <==> GroupOf(contacts, g) != {}
      ensures forall g :: g in tally.counts ==> tally.counts[g] == |GroupOf(contacts, g)|
      ensures SumCounts(tally.groups, tally.counts) == total
      ensures FirstSeenOrder(order, contacts, tally.groups)
    {
      total := |contacts|;
      var counts: map<string, nat> := map[];
      var groups: seq<string> := [];
      for i := 0 to |order|
        invariant GroupTally(counts, groups) == Tally(order[..i], contacts)
      {
        assert order[..i + 1][..i] == order[..i];
        var grp := contacts[order[i]].group;
        if grp in counts {
          counts := counts[grp := counts[grp] + 1];
        } else {
          counts := counts[grp := 1];
          groups := groups + [grp];
        }
      }
      assert order[..|order|] == order;
      tally := GroupTally(counts, groups);
      StoreStatistics(order, contacts);
    }

    /** The rows `export_to_csv` hands to the CSV writer: the header, then
        one row per record in store order (so, by `ExportCoversStore`, every
        record appears exactly once). */
    method ExportRows() returns (rows: seq<Row>)
      requires Valid()
      ensures |rows| == |order| + 1 && rows[0] == Header
      ensures forall k :: 0 <= k < |order| ==> rows[k + 1] == ContactRow(order[k], contacts[order[k]])
    {
      rows := [Header];
      for i := 0 to |order|
        invariant |rows| == i + 1 && rows[0] == Header
        invariant forall k :: 0 <= k < i ==> rows[k + 1] == ContactRow(order[k], contacts[order[k]])
      {
        var name := order[i];
        rows := rows + [ContactRow(name, contacts[name])];
      }
    }
  }

  /** A sample session: Alice is added to an empty store; the export then
      holds the header and her row, and the statistics count one contact, in
      group `Friends`. */
  method AliceScenario(name: string, phone: string, email: string, group: string, now: string)
    returns (outcome: AddOutcome, rows: seq<Row>, total: nat, tally: GroupTally)
    requires name == "Alice" && phone == "555-123-4567" && email == "a@b.com" && group == "Friends"
    ensures outcome == Added
    ensures rows == [Header, [Some(name), Some("5551234567"), Some(email), None, Some(group)]]
    ensures total == 1 && tally == GroupTally(map[group := 1], [group])
  {
    var book;
    book, outcome := AliceAdded(name, phone, email, group, now);
    var alice := Contact("5551234567", Some(email), None, group, now, now);
    assert book.order[0] == name && book.contacts[name] == alice;
    rows := book.ExportRows();
    assert |rows| == 2 && rows[0] == Header;
    assert rows[1] == ContactRow(name, alice);
    TallyOne(name, alice);
    total, tally := book.ShowStatistics();
  }

  /** The first step of the sample session: adding Alice to an empty store
      stores her cleaned phone, her email, no address and her group. */
  method AliceAdded(name: string, phone: string, email: string, group: string, now: string)
    returns (book: ContactBook, outcome: AddOutcome)
    requires name == "Alice" && phone == "555-123-4567" && email == "a@b.com" && group == "Friends"
    ensures fresh(book) && book.Valid() && outcome == Added
    ensures book.order == [name]
    ensures book.contacts == map[name := Contact("5551234567", Some(email), None, group, now, now)]
  {
    book := new ContactBook();
    AliceInputs(name, phone, email, group);
    outcome := book.AddContact(name, phone, email, "", group, now, now);
  }

  /** The inputs of the sample session are accepted as they are. */
  lemma AliceInputs(name: string, phone: string, email: string, group: string)
    requires name == "Alice" && phone == "555-123-4567" && email == "a@b.com" && group == "Friends"
    ensures Strip(name) == name && Strip(group) == group && group != [] && Strip("") == ""
    ensures Strip(email) == email && email != [] && ValidateEmail(email)
    ensures Strip(phone) == phone && CleanPhone(phone) == Some("5551234567")
  {
    MatcherComplete("a", "b", "com");
    assert "a" + "@" + "b" + "." + "com" == "a@b.com";
    PhoneExample(phone);
  }
}
