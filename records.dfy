/** The contact record, the contents a record may legitimately hold, and the
    two Python idioms `x or None` and `x or "Other"` used when one is built. */
module Records {
  import opened Wrappers
  import opened Text
  import opened Validation

  /** One entry of the store. Timestamps are the opaque ISO-8601 strings
      produced by `datetime.now().isoformat()`. */
  datatype Contact = Contact(
    phone: string,
    email: Option<string>,
    address: Option<string>,
    group: string,
    createdAt: string,
    updatedAt: string)

  /** The group given to a contact added with a blank group. */
  const DefaultGroup: string := "Other"

  /** A nonblank input as it is kept after `strip()`. */
  predicate IsFilled(s: string) {
    s != [] && Strip(s) == s
  }

  /** What the operations ever store in a record: a cleaned phone number,
      an absent or valid stripped email, an absent or stripped address and
      a nonblank stripped group. */
  predicate WellFormed(c: Contact) {
    && IsPhoneNumber(c.phone)
    && (c.email.Some? ==> IsFilled(c.email.value) && ValidateEmail(c.email.value))
    && (c.address.Some? ==> IsFilled(c.address.value))
    && IsFilled(c.group)
  }

  /** Python's `s or None` on a string. */
  function OrNone(s: string): (r: Option<string>)
    ensures r.None? <==> s == []
    ensures r.Some? ==> r.value == s
  {
    if s == [] then None else Some(s)
  }

  /** Python's `s or fallback` on a string. */
  function OrElse(s: string, fallback: string): (r: string)
    ensures s != [] ==> r == s
    ensures s == [] ==> r == fallback
  {
    if s == [] then fallback else s
  }

  /** A stripped input is filled exactly when it is nonempty. */
  lemma StrippedIsFilled(raw: string)
    requires Strip(raw) != []
    ensures IsFilled(Strip(raw))
  {
    StripIdempotent(raw);
  }

  /** A blank group falls back to a filled default. */
  lemma GroupFilled(group: string)
    requires Strip(group) == group
    ensures IsFilled(OrElse(group, DefaultGroup))
  {
    assert TrimStart(DefaultGroup) == DefaultGroup;
    assert TrimEnd(DefaultGroup) == DefaultGroup;
  }

  /** The record `add_contact` builds from accepted, stripped inputs is well
      formed. */
  lemma NewContactWellFormed(phone: string, email: string, address: string, group: string,
                             createdAt: string, updatedAt: string)
    requires IsPhoneNumber(phone)
    requires Strip(email) == email && ValidateEmail(email)
    requires Strip(address) == address && Strip(group) == group
    ensures WellFormed(Contact(phone, OrNone(email), OrNone(address), OrElse(group, DefaultGroup),
                               createdAt, updatedAt))
  {
    var c := Contact(phone, OrNone(email), OrNone(address), OrElse(group, DefaultGroup), createdAt, updatedAt);
    GroupFilled(group);
    assert c.email.Some? ==> IsFilled(c.email.value) && ValidateEmail(c.email.value);
    assert c.address.Some? ==> IsFilled(c.address.value);
  }

  /** Every name is nonblank and stripped, and every record well formed. */
  predicate SoundRecords(contacts: map<string, Contact>) {
    forall n :: n in contacts ==> IsFilled(n) && WellFormed(contacts[n])
  }

  /** Storing a well-formed record under a filled name keeps the records
      sound. */
  lemma SoundStore(contacts: map<string, Contact>, name: string, c: Contact)
    requires SoundRecords(contacts) && IsFilled(name) && WellFormed(c)
    ensures SoundRecords(contacts[name := c])
  {
  }

  /** Removing a record keeps the records sound. */
  lemma SoundRemove(contacts: map<string, Contact>, name: string)
    requires SoundRecords(contacts)
    ensures SoundRecords(contacts - {name})
  {
  }

  /** The record `add_contact` stores, built from the raw inputs, keeps the
      records sound. */
  lemma SoundAfterAdd(contacts: map<string, Contact>, rawName: string, rawPhone: string, rawEmail: string,
                      rawAddress: string, rawGroup: string, createdAt: string, updatedAt: string)
    requires SoundRecords(contacts)
    requires Strip(rawName) != [] && CleanPhone(Strip(rawPhone)).Some? && ValidateEmail(Strip(rawEmail))
    ensures SoundRecords(contacts[Strip(rawName) :=
              Contact(CleanPhone(Strip(rawPhone)).value, OrNone(Strip(rawEmail)), OrNone(Strip(rawAddress)),
                      OrElse(Strip(rawGroup), DefaultGroup), createdAt, updatedAt)])
  {
    CleanPhoneSpec(Strip(rawPhone));
    StripIdempotent(rawName);
    StripIdempotent(rawEmail);
    StripIdempotent(rawAddress);
    StripIdempotent(rawGroup);
    NewContactWellFormed(CleanPhone(Strip(rawPhone)).value, Strip(rawEmail), Strip(rawAddress), Strip(rawGroup),
                         createdAt, updatedAt);
    SoundStore(contacts, Strip(rawName),
               Contact(CleanPhone(Strip(rawPhone)).value, OrNone(Strip(rawEmail)), OrNone(Strip(rawAddress)),
                       OrElse(Strip(rawGroup), DefaultGroup), createdAt, updatedAt));
  }

  /** A phone input `update_contact` gets past: blank, or one that cleans. */
  predicate PhonePasses(rawPhone: string) {
    Strip(rawPhone) == [] || CleanPhone(Strip(rawPhone)).Some?
  }

  /** The phone after an update: kept when the input is blank. */
  function RevisedPhone(current: string, rawPhone: string): string
    requires PhonePasses(rawPhone)
  {
    if Strip(rawPhone) == [] then current else CleanPhone(Strip(rawPhone)).value
  }

  /** An optional field after an update: kept when the input is blank. */
  function Revised(current: Option<string>, raw: string): Option<string> {
    if Strip(raw) == [] then current else Some(Strip(raw))
  }

  /** What `update_contact` leaves behind keeps the records sound: after an
      accepted phone alone (the email being rejected), and after a complete
      update. */
  lemma SoundAfterUpdate(contacts: map<string, Contact>, name: string, rawPhone: string, rawEmail: string,
                         rawAddress: string, now: string)
    requires SoundRecords(contacts) && name in contacts && PhonePasses(rawPhone)
    ensures var was := contacts[name];
            SoundRecords(contacts[name := was.(phone := RevisedPhone(was.phone, rawPhone))])
    ensures var was := contacts[name];
            ValidateEmail(Strip(rawEmail)) ==>
            SoundRecords(contacts[name := was.(phone := RevisedPhone(was.phone, rawPhone),
                                               email := Revised(was.email, rawEmail),
                                               address := Revised(was.address, rawAddress),
                                               updatedAt := now)])
  {
    var was := contacts[name];
    var phoned := was.(phone := RevisedPhone(was.phone, rawPhone));
    CleanPhoneSpec(Strip(rawPhone));
    assert WellFormed(phoned);
    SoundStore(contacts, name, phoned);
    if ValidateEmail(Strip(rawEmail)) {
      StripIdempotent(rawEmail);
      StripIdempotent(rawAddress);
      var full := phoned.(email := Revised(was.email, rawEmail), address := Revised(was.address, rawAddress),
                          updatedAt := now);
      assert full.email.Some? ==> IsFilled(full.email.value) && ValidateEmail(full.email.value);
      assert full.address.Some? ==> IsFilled(full.address.value);
      assert WellFormed(full);
      SoundStore(contacts, name, full);
    }
  }
}
