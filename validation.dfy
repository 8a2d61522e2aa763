/** The two validation functions of the contact manager: phone cleaning
    (`clean_phone`) and the email check (`validate_email`). Both are pure. */
module Validation {
  import opened Wrappers
  import opened Text

  // ---------------------------------------------------------------------
  // Phone numbers
  // ---------------------------------------------------------------------

  /** The digit characters of `s`, in order: `re.sub(r"\D", "", s)`. */
  function Digits(s: string): string {
    if s == [] then []
    else Digits(s[..|s| - 1]) + (if IsDigit(s[|s| - 1]) then [s[|s| - 1]] else [])
  }

  /** Cleaning keeps only digits. */
  lemma {:induction false} DigitsAreDigits(s: string)
    ensures |Digits(s)| <= |s|
    ensures forall k :: 0 <= k < |Digits(s)| ==> IsDigit(Digits(s)[k])
  {
    if s != [] {
      DigitsAreDigits(s[..|s| - 1]);
    }
  }

  /** The positions of `s` that hold a digit. */
  ghost function DigitPositions(s: string): set<int> {
    set k | 0 <= k < |s| && IsDigit(s[k])
  }

  /** The number of digit characters in `s`. */
  ghost function DigitCount(s: string): nat {
    |DigitPositions(s)|
  }

  lemma {:induction false} DigitsLength(s: string)
    ensures |Digits(s)| == DigitCount(s)
  {
    if s != [] {
      var init := s[..|s| - 1];
      DigitsLength(init);
      assert DigitPositions(s) ==
        DigitPositions(init) + (if IsDigit(s[|s| - 1]) then {|s| - 1} else {});
    }
  }

  /** Cleaning distributes over concatenation, so the digits keep their
      original relative order. */
  lemma {:induction false} DigitsAppend(a: string, b: string)
    ensures Digits(a + b) == Digits(a) + Digits(b)
  {
    if b != [] {
      var init := b[..|b| - 1];
      assert (a + b)[..|a + b| - 1] == a + init;
      DigitsAppend(a, init);
    } else {
      assert a + b == a;
    }
  }

  /** Cleaning keeps every digit as often as it occurs and drops everything
      else. */
  lemma {:induction false} DigitsMultiset(s: string, c: char)
    ensures multiset(Digits(s))[c] == if IsDigit(c) then multiset(s)[c] else 0
  {
    if s != [] {
      var init := s[..|s| - 1];
      DigitsMultiset(init, c);
      assert s == init + [s[|s| - 1]];
    }
  }

  /** A string made only of digits cleans to itself. */
  lemma {:induction false} DigitsOfDigitString(s: string)
    requires forall k :: 0 <= k < |s| ==> IsDigit(s[k])
    ensures Digits(s) == s
  {
    if s != [] {
      DigitsOfDigitString(s[..|s| - 1]);
    }
  }

  /** A stored phone number: 10 to 15 digits and nothing else. */
  predicate IsPhoneNumber(p: string) {
    10 <= |p| <= 15 && forall k :: 0 <= k < |p| ==> IsDigit(p[k])
  }

  /** `clean_phone`: the digits of `raw` when there are 10 to 15 of them,
      otherwise `None`. */
  function CleanPhone(raw: string): Option<string> {
    var digits := Digits(raw);
    if 10 <= |digits| <= 15 then Some(digits) else None
  }

  /** Cleaning fails exactly when the input holds fewer than 10 or more
      than 15 digits; otherwise it yields those digits, a phone number. */
  lemma CleanPhoneSpec(raw: string)
    ensures CleanPhone(raw).None? <==> !(10 <= DigitCount(raw) <= 15)
    ensures CleanPhone(raw).Some? ==> CleanPhone(raw).value == Digits(raw) && IsPhoneNumber(CleanPhone(raw).value)
  {
    DigitsLength(raw);
    DigitsAreDigits(raw);
  }

  /** A cleaned number is a fixed point of cleaning. */
  lemma CleanPhoneIdempotent(raw: string)
    requires CleanPhone(raw).Some?
    ensures CleanPhone(CleanPhone(raw).value) == CleanPhone(raw)
  {
    DigitsAreDigits(raw);
    DigitsOfDigitString(Digits(raw));
  }

  // ---------------------------------------------------------------------
  // Email addresses
  // ---------------------------------------------------------------------

  /** The character class `[\w\.-]`. */
  predicate IsAddressChar(c: char) {
    IsWordChar(c) || c == '.' || c == '-'
  }

  predicate AllAddressChars(s: string) {
    forall k :: 0 <= k < |s| ==> IsAddressChar(s[k])
  }

  predicate AllWordChars(s: string) {
    forall k :: 0 <= k < |s| ==> IsWordChar(s[k])
  }

  /** The three pieces of `local@domain.tld` as the pattern
      `^[\w\.-]+@[\w\.-]+\.\w{2,}$` constrains them. */
  ghost predicate IsEmailParts(local: string, domain: string, tld: string) {
    |local| > 0 && AllAddressChars(local) &&
    |domain| > 0 && AllAddressChars(domain) &&
    |tld| >= 2 && AllWordChars(tld)
  }

  /** The language of the pattern `^[\w\.-]+@[\w\.-]+\.\w{2,}$`. Python's
      `$` would also accept one trailing newline; both callers strip their
      input first, so that case never reaches the check. */
  ghost predicate MatchesEmailPattern(e: string) {
    exists local, domain, tld ::
      IsEmailParts(local, domain, tld) && e == local + "@" + domain + "." + tld
  }

  /** Length of the longest suffix of `s` made of word characters. */
  function TrailingWordLen(s: string): nat {
    if s != [] && IsWordChar(s[|s| - 1]) then TrailingWordLen(s[..|s| - 1]) + 1 else 0
  }

  /** The suffix counted is made of word characters and cannot be extended. */
  lemma {:induction false} TrailingWordLenSpec(s: string)
    ensures TrailingWordLen(s) <= |s|
    ensures AllWordChars(s[|s| - TrailingWordLen(s)..])
    ensures TrailingWordLen(s) < |s| ==> !IsWordChar(s[|s| - TrailingWordLen(s) - 1])
  {
    if s != [] && IsWordChar(s[|s| - 1]) {
      var init := s[..|s| - 1];
      TrailingWordLenSpec(init);
      assert s[|s| - TrailingWordLen(s)..] == init[|init| - TrailingWordLen(init)..] + [s[|s| - 1]];
    }
  }

  /** Index of the first `c` in `s`, or `|s|` when there is none. */
  function IndexOf(s: string, c: char): nat {
    if s == [] then 0
    else if s[0] == c then 0
    else IndexOf(s[1..], c) + 1
  }

  /** The index found holds `c`, unless it is `|s|`, and no earlier one does. */
  lemma {:induction false} IndexOfSpec(s: string, c: char)
    ensures IndexOf(s, c) <= |s|
    ensures IndexOf(s, c) < |s| ==> s[IndexOf(s, c)] == c
    ensures forall k :: 0 <= k < IndexOf(s, c) ==> s[k] != c
  {
    if s != [] && s[0] != c {
      IndexOfSpec(s[1..], c);
      forall k | 1 <= k < IndexOf(s, c) ensures s[k] != c {
        assert s[k] == s[1..][k - 1];
      }
    }
  }

  /** A direct matcher for the email pattern. The top-level part can only be
      the longest run of word characters at the end (it is preceded by `.`,
      which is not a word character), and the `@` can only be the first one
      (neither `[\w\.-]` run contains `@`). */
  predicate MatchesEmail(e: string) {
    var tldLen := TrailingWordLen(e);
    tldLen >= 2 && tldLen < |e| && e[|e| - tldLen - 1] == '.' &&
    var head := e[..|e| - tldLen - 1];
    var at := IndexOf(head, '@');
    0 < at < |head| - 1 && AllAddressChars(head[..at]) && AllAddressChars(head[at + 1..])
  }

  /** The matcher accepts a string exactly when the pattern's language
      contains it. */
  lemma MatchesEmailCorrect(e: string)
    ensures MatchesEmail(e) <==> MatchesEmailPattern(e)
  {
    if MatchesEmail(e) {
      MatcherSound(e);
    }
    if MatchesEmailPattern(e) {
      var local, domain, tld :| IsEmailParts(local, domain, tld) && e == local + "@" + domain + "." + tld;
      MatcherComplete(local, domain, tld);
    }
  }

  /** What the matcher accepts splits into the three pieces of the pattern. */
  lemma MatcherSound(e: string)
    requires MatchesEmail(e)
    ensures MatchesEmailPattern(e)
  {
    var tldLen := TrailingWordLen(e);
    TrailingWordLenSpec(e);
    var head := e[..|e| - tldLen - 1];
    var at := IndexOf(head, '@');
    IndexOfSpec(head, '@');
    var local, domain, tld := head[..at], head[at + 1..], e[|e| - tldLen..];
    assert head == local + "@" + domain;
    assert e == head + "." + tld;
    assert IsEmailParts(local, domain, tld);
  }

  /** Every string of the pattern's language is accepted by the matcher. */
  lemma MatcherComplete(local: string, domain: string, tld: string)
    requires IsEmailParts(local, domain, tld)
    ensures MatchesEmail(local + "@" + domain + "." + tld)
  {
    var e := local + "@" + domain + "." + tld;
    var head := local + "@" + domain;
    assert e == head + "." + tld;
    TrailingWordLenOfSplit(head, '.', tld);
    assert e[..|e| - |tld| - 1] == head;
    IndexOfAfterRun(local, domain);
    assert head[..|local|] == local;
    assert head[|local| + 1..] == domain;
  }

  /** The longest word-character suffix of `head + [sep] + tld` is `tld`
      when `sep` is not a word character. */
  lemma {:induction false} TrailingWordLenOfSplit(head: string, sep: char, tld: string)
    requires !IsWordChar(sep) && AllWordChars(tld)
    ensures TrailingWordLen(head + [sep] + tld) == |tld|
  {
    var e := head + [sep] + tld;
    if tld != [] {
      var init := tld[..|tld| - 1];
      assert e[..|e| - 1] == head + [sep] + init;
      TrailingWordLenOfSplit(head, sep, init);
    }
  }

  /** The first `@` of `local + "@" + domain` is the one after `local` when
      `local` is made of address characters. */
  lemma {:induction false} IndexOfAfterRun(local: string, domain: string)
    requires AllAddressChars(local)
    ensures IndexOf(local + "@" + domain, '@') == |local|
  {
    if local != [] {
      assert (local + "@" + domain)[1..] == local[1..] + "@" + domain;
      IndexOfAfterRun(local[1..], domain);
    }
  }

  /** `validate_email`: the empty string is accepted (the field is
      optional); anything else must match the pattern. */
  function ValidateEmail(email: string): bool {
    email == [] || MatchesEmail(email)
  }

  /** `validate_email` accepts exactly the empty string and the strings of
      the pattern's language. */
  lemma ValidateEmailSpec(email: string)
    ensures ValidateEmail(email) <==> email == [] || MatchesEmailPattern(email)
  {
    MatchesEmailCorrect(email);
  }

  /** A nonempty valid address holds exactly one `@`. */
  lemma ValidEmailHasOneAt(e: string)
    requires e != [] && ValidateEmail(e)
    ensures multiset(e)['@'] == 1
  {
    ValidateEmailSpec(e);
    var local, domain, tld :| IsEmailParts(local, domain, tld) && e == local + "@" + domain + "." + tld;
    NoAtInRun(local);
    NoAtInRun(domain);
    NoAtInRun(tld);
    assert multiset(e) == multiset(local) + multiset{'@'} + multiset(domain) + multiset{'.'} + multiset(tld);
  }

  /** A run of address characters holds no `@`. */
  lemma NoAtInRun(s: string)
    requires AllAddressChars(s)
    ensures multiset(s)['@'] == 0
  {
  }

  /** The examples `""` (no email given) and `a@b.co` are accepted. */
  lemma AcceptedExamples()
    ensures ValidateEmail("")
    ensures ValidateEmail("a@b.co")
  {
    ValidateEmailSpec("a@b.co");
    MatcherComplete("a", "b", "co");
    assert "a" + "@" + "b" + "." + "co" == "a@b.co";
  }

  /** `not-an-email`, which has no `@`, is rejected. */
  lemma RejectedExample()
    ensures !ValidateEmail("not-an-email")
  {
    var e := "not-an-email";
    assert multiset(e)['@'] == 0;
    if ValidateEmail(e) {
      ValidEmailHasOneAt(e);
    }
  }

  /** A dash between two pieces contributes no digit. */
  lemma DigitsAroundDash(a: string, b: string)
    ensures Digits(a + "-" + b) == Digits(a) + Digits(b)
  {
    var dash := "-";
    assert Digits(dash) == [] by {
      assert dash[..0] == [];
    }
    DigitsAppend(a, dash);
    DigitsAppend(a + dash, b);
  }

  /** A number written in dashed groups of digits cleans to the groups run
      together. */
  lemma DashedDigits(a: string, b: string, c: string)
    requires forall k :: 0 <= k < |a| ==> IsDigit(a[k])
    requires forall k :: 0 <= k < |b| ==> IsDigit(b[k])
    requires forall k :: 0 <= k < |c| ==> IsDigit(c[k])
    ensures Digits(a + "-" + b + "-" + c) == a + b + c
  {
    DigitsAroundDash(a, b);
    DigitsAroundDash(a + "-" + b, c);
    DigitsOfDigitString(a);
    DigitsOfDigitString(b);
    DigitsOfDigitString(c);
  }

  /** The example `555-123-4567` cleans to its ten digits. */
  lemma PhoneExample(phone: string)
    requires phone == "555-123-4567"
    ensures CleanPhone(phone) == Some("5551234567")
  {
    DashedDigits("555", "123", "4567");
    assert "555" + "-" + "123" + "-" + "4567" == phone;
    assert "555" + "123" + "4567" == "5551234567";
  }
}
