# Contact manager, modelled in Dafny

This project models the core of `contact-manager.py`, a console contact
book kept in a Python dict from contact name to a record with these fields:

- a phone number;
- an optional email and an optional address;
- a group;
- creation and update timestamps.

The model covers:

- the two validators, `clean_phone` and `validate_email`;
- the three guarded mutations of the store: `add_contact`, `update_contact` and `delete_contact`;
- the three read-only passes over it: search, statistics and the rows of the CSV export.

Modules, one file each:

- `wrappers.dfy` (`Wrappers`): the `Option` type. It models Python's `None`.
- `text.dfy` (`Text`): the string primitives the source relies on, over ASCII.
  - the character classes `\d`, `\w` and `str.isspace`;
  - `str.lower`;
  - `str.strip`, built from `lstrip` and `rstrip`;
  - substring search, `term in name`.
- `validation.dfy` (`Validation`):
  - `clean_phone`, as `CleanPhone` over `Digits`;
  - `validate_email`, as a hand-written checker (`MatchesEmail`) plus the language of the regular expression `^[\w\.-]+@[\w\.-]+\.\w{2,}$`, written as a predicate (`MatchesEmailPattern`). The two are proved equal.
- `records.dfy` (`Records`):
  - the `Contact` record and what a stored record may hold (`WellFormed`);
  - the idioms `s or None` and `s or "Other"`;
  - lemmas showing that every operation keeps the stored records well formed.
- `keyorder.dfy` (`KeyOrder`): the insertion order of a Python dict. It is a sequence of distinct keys, where a new key goes at the end and a deleted key is removed without disturbing the others.
- `reports.dfy` (`Reports`): the specification functions of the read-only passes.
  - `MatchingNames` for search;
  - `Tally` for the `groups` dict of `show_statistics`;
  - `ContactRow` for the export.

  `Records.OrNone`, `Records.OrElse` and `Reports.ContactRow` are plain definitions of `s or None`, `s or "Other"` and the layout of an export row; what they mean for the store is proved by `Records.GroupFilled`, `Records.NewContactWellFormed`, `Reports.ExportCoversStore` and `Store.AliceScenario`.
- `store.dfy` (`Store`):
  - the class `ContactBook`. It holds the records in a `map` and the dict's key order in a `seq`, and its methods update them in place;
  - a sample session (`AliceScenario`).

How the source is mapped:

- **Inputs.** The console prompts of an operation become its parameters, in the order the source asks for them.
- **Messages.** The messages an operation prints become an outcome value, one constructor per exit (`AddOutcome`, `UpdateOutcome`, `DeleteOutcome`).
- **Timestamps.** `datetime.now().isoformat()` is an opaque string parameter. `add_contact` reads the clock twice, so it receives two such strings.

Two behaviours of the source worth knowing:

- **Update is not atomic.** `update_contact` stores a valid new phone (line 138) before it checks the new email (lines 142-144). So a rejected email leaves the new phone stored and `updated_at` unchanged. `Store.ContactBook.UpdateContact` states exactly that (`UpdateBadEmail`).
- **Delete confirmation.** Only `y` or `Y` counts as confirmation, because the answer is lower-cased but not stripped.

## Model

| member | source | states |
|---|---|---|
| Text.LowerSpec | contact-manager.py:107 | `lower()` keeps the length, is idempotent, leaves no upper-case letter and keeps every other character as it is |
| Text.LowerIsY | contact-manager.py:162-163 | the lower-cased confirmation equals `y` exactly when the answer is `y` or `Y` |
| Text.TrimStartSpec | contact-manager.py:71 | `lstrip` removes a prefix made only of whitespace, and leaves a result that is empty or starts with a non-space |
| Text.TrimEndSpec | contact-manager.py:71 | `rstrip` removes a suffix made only of whitespace, and leaves a result that is empty or ends with a non-space |
| Text.StripSpec | contact-manager.py:71 | `strip()` never lengthens its input and leaves no whitespace at either end |
| Text.StripSlice | contact-manager.py:71 | `strip()` returns one contiguous slice of its input, with only whitespace before and after it |
| Text.StripIdempotent | contact-manager.py:71 | stripping twice is the same as stripping once |
| Text.StripBlank | contact-manager.py:72 | an input strips to the empty string exactly when it is all whitespace |
| Text.ContainsIsSubstring | contact-manager.py:111 | the substring test `term in name` holds exactly when `term` occurs at some position of `name` |
| Validation.DigitsAreDigits | contact-manager.py:22 | `re.sub(r"\D", "", s)` yields only digits and is no longer than `s` |
| Validation.DigitsLength | contact-manager.py:22-23 | the length of the cleaned number is the number of digit positions of the input |
| Validation.DigitsAppend | contact-manager.py:22 | removing non-digits works piecewise: `Digits(a + b) == Digits(a) + Digits(b)` |
| Validation.DigitsMultiset | contact-manager.py:22 | each digit occurs in the result as often as in the input, and no other character occurs |
| Validation.DigitsOfDigitString | contact-manager.py:22 | a string of digits is left as it is |
| Validation.DashedDigits | contact-manager.py:22 | a number written as dashed groups of digits cleans to the groups run together |
| Validation.CleanPhoneSpec | contact-manager.py:22-25 | `clean_phone` returns `None` exactly when the input has fewer than 10 or more than 15 digits; otherwise it returns the input's digits in order, a 10-15 digit phone number |
| Validation.CleanPhoneIdempotent | contact-manager.py:22-24 | cleaning an accepted result again gives the same result |
| Validation.PhoneExample | contact-manager.py:22-24 | `555-123-4567` cleans to `5551234567` |
| Validation.MatchesEmailCorrect | contact-manager.py:34-35 | the hand-written matcher accepts exactly the strings of the regex's language: a nonempty `[\w.-]` run, `@`, a nonempty `[\w.-]` run, `.`, and at least two word characters |
| Validation.MatcherSound | contact-manager.py:34-35 | whatever the matcher accepts splits into the three parts of the pattern |
| Validation.MatcherComplete | contact-manager.py:34-35 | every local part, domain and top-level domain of the pattern's shape is accepted when joined with `@` and `.` |
| Validation.ValidateEmailSpec | contact-manager.py:32-35 | `validate_email` holds exactly for the empty string and for the strings of the pattern's language |
| Validation.ValidEmailHasOneAt | contact-manager.py:34 | a nonempty accepted email contains exactly one `@` |
| Validation.AcceptedExamples | contact-manager.py:32-35 | the empty email and `a@b.co` are accepted |
| Validation.RejectedExample | contact-manager.py:34-35 | `not-an-email` is rejected |
| Records.StrippedIsFilled | contact-manager.py:71-72 | a nonblank stripped input is nonempty and stays the same when stripped again |
| Records.GroupFilled | contact-manager.py:92 | the group stored by `add_contact` is never blank, even when the input is |
| Records.NewContactWellFormed | contact-manager.py:91-101 | the record built from accepted, stripped inputs is well formed |
| Records.SoundStore | contact-manager.py:94 | storing a well-formed record under a filled name keeps every record well formed |
| Records.SoundRemove | contact-manager.py:164 | deleting a key keeps every record well formed |
| Records.SoundAfterAdd | contact-manager.py:71-101 | the record that `add_contact` stores from the raw inputs, once they pass its guards, keeps the store sound |
| Records.SoundAfterUpdate | contact-manager.py:132-151 | both the state left by a rejected email (new phone only) and the state after a complete update keep the store sound |
| KeyOrder.Without | contact-manager.py:164 | after `del`, the key order holds every key except the deleted one |
| KeyOrder.WithoutAt | contact-manager.py:164 | deleting a key that occurs once closes the gap and keeps the others in order |
| KeyOrder.WithoutAbsent | contact-manager.py:164 | removing a key the order does not hold leaves the order as it is |
| KeyOrder.WithoutDistinct | contact-manager.py:164 | the key order stays free of duplicates after a deletion |
| KeyOrder.AppendDistinct | contact-manager.py:94 | appending a new key keeps the key order free of duplicates |
| KeyOrder.DistinctCardinality | contact-manager.py:203 | a duplicate-free order has as many distinct keys as entries |
| KeyOrder.KeysCardinality | contact-manager.py:203 | the key order is as long as the dict, so `len(contacts)` counts the iterated records |
| Reports.MatchingNamesMembers | contact-manager.py:110-111 | a name is reported by search exactly when it is a store name whose lower-cased form contains the term |
| Reports.MatchingNamesAppend | contact-manager.py:110-112 | searching a concatenation of names reports the matches of each part, in order |
| Reports.MatchingNamesDistinct | contact-manager.py:110-112 | over distinct names, search reports each match once |
| Reports.TallyOne | contact-manager.py:205-208 | a single record tallies one member of its group |
| Reports.TallyShape | contact-manager.py:205-208 | the groups of the tally are exactly its counted keys, each listed once |
| Reports.CountedIsSeen | contact-manager.py:205-208 | every counted group is the group of some visited record |
| Reports.TallyOrder | contact-manager.py:205-211 | the groups are listed in the order first met: a group listed before another is the group of a record visited before any record of the later group, which is the order `show_statistics` prints them in |
| Reports.OrderStepOld | contact-manager.py:206-208 | the order of listed groups survives one more visited record whose group is already counted |
| Reports.OrderStepNew | contact-manager.py:206-208 | a group first met at the last visited record comes after every group listed before it |
| Reports.SeenInPrefix | contact-manager.py:206-207 | a group met within a prefix of the visit is met by the same position of the whole visit |
| Reports.MembersStep | contact-manager.py:206-208 | visiting one more record adds it to its own group only |
| Reports.TallyGroups | contact-manager.py:205-208 | a group is counted exactly when some visited record has it |
| Reports.TallyCounts | contact-manager.py:206-208 | over distinct names, each group's count is the number of visited records with that group |
| Reports.TallyCountStep | contact-manager.py:208 | the count of one group after one more visited record |
| Reports.SumCountsFrame | contact-manager.py:208 | changing the count of an unlisted group leaves the sum of counts alone |
| Reports.SumCountsBump | contact-manager.py:208 | incrementing one listed group's count raises the sum by one |
| Reports.TallySum | contact-manager.py:205-208 | the counts add up to the number of records visited |
| Reports.StoreStatistics | contact-manager.py:203-211 | over the whole store, each group occurring in the store is counted once, with the number of its records, and the counts add up to `len(contacts)`; the groups are listed in the order first met in the store |
| Reports.ExportCoversStore | contact-manager.py:187-196 | after the header, each row has five cells, and the name column lists every name of the store exactly once |
| Store.ContactBook.constructor | contact-manager.py:50-52 | with no data file, the store starts empty |
| Store.ContactBook.Loaded | contact-manager.py:46-49 | a store read back from the data file, with its key order |
| Store.ContactBook.AddContact | contact-manager.py:68-103 | in the source's order, each guard (blank name, taken name, bad phone, bad email) rejects exactly its inputs and changes nothing; on success exactly one record is added, under the stripped name and at the end of the order, holding the cleaned phone, `None` for a blank email or address, `Other` for a blank group, and the two timestamps |
| Store.ContactBook.UpdateContact | contact-manager.py:125-152 | an unknown name or a bad nonblank phone changes nothing; a bad nonblank email leaves only the new phone stored; on success the phone, email and address are replaced where the input is nonblank and `updatedAt` is set; the key set, the order, the group, the creation time and every other record never change |
| Store.ContactBook.DeleteContact | contact-manager.py:155-165 | the record is removed exactly when the name is present and the answer is `y` or `Y`; its key leaves the order and the other keys keep their order; otherwise nothing changes |
| Store.ContactBook.SearchContact | contact-manager.py:106-122 | the matches are the store names, in store order, whose lower-cased form contains the lower-cased term, each once; "not found" is reported exactly when there are none |
| Store.ContactBook.ShowStatistics | contact-manager.py:201-211 | the total is the number of records; the tally is the one the single pass builds, counts each group present in the store once with its number of records, lists the groups in the order first met, as they are printed, and its counts add up to the total |
| Store.ContactBook.ExportRows | contact-manager.py:184-198 | the header row, then one row per record in store order |
| Store.AliceScenario | contact-manager.py:68-103 | adding Alice (`555-123-4567`, `a@b.com`, no address, `Friends`) to an empty store succeeds; the export is the header plus `Alice, 5551234567, a@b.com, None, Friends`; the statistics give a total of 1 and `Friends: 1` |
| Store.AliceAdded | contact-manager.py:68-103 | adding Alice to an empty store succeeds and stores her alone, with the cleaned phone `5551234567`, her email, no address and group `Friends` |
| Store.AliceInputs | contact-manager.py:71-92 | the sample session's inputs strip to themselves and pass the phone and email checks |

## Left out

- Console I/O (`input`, `print`), `main_menu`, the `main` loop and `display_all_contacts`. They are interaction only. The prompts are parameters, the messages are outcome values, and search returns its matches instead of printing them.
- JSON persistence (`load_contacts`, `save_contacts`). These are whole-file calls into `json` and the filesystem. `ContactBook.Loaded` takes the records and key order as read. Nothing proves that a loaded file satisfies the record invariant; `Records.SoundRecords` states what every operation preserves.
- CSV writing and quoting by the `csv` module. This is a foreign library. Only the list of rows is modelled, with `None` standing for a cell `csv` writes as empty.
- `datetime.now().isoformat()`. The clock becomes opaque string parameters.
- Unicode semantics of `\d`, `\w`, `str.lower()` and `str.strip()`. These are modelled over ASCII: digits `0-9`; word characters = letters, digits and `_`; ASCII case folding; whitespace = tab to carriage return plus the characters 28-32.
- `$` in `re.match` also matching before a final newline. Both callers strip the email first, so a stripped input never ends in a newline.
- Store.ContactBook.UpdateContact: the source writes each field of the record in place in turn (lines 138, 145, 149, 151). The model stores the new phone before the email check, and the rest of the record in one write at the end. Nothing can observe the store between those writes, so the two orders reach the same states.
- Store.ContactBook.AddContact, Store.ContactBook.UpdateContact, Store.ContactBook.DeleteContact: the invariant that every stored record is well formed (`Records.SoundRecords`) is not in these methods' contracts. It is proved separately, by `Records.SoundAfterAdd`, `Records.SoundAfterUpdate` and `Records.SoundRemove`, over the exact new state each method's contract states.
