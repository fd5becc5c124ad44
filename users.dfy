/**
 * Contact records: the checks and canonicalisations a user record goes through
 * when it is built (crm_cli_app/user.py). A failed check raises in the program;
 * here it is the error variant of a `Result` or `Outcome`, in the order the
 * program runs the checks.
 */
module Users {
  import opened Results
  import opened Text
  import opened Collapse

  /** Which of the two name fields a name error is about. */
  datatype NameField = First | Last

  /** One variant per `ValueError` the checks raise. */
  datatype FieldError =
    | EmailAtCount        // not exactly one '@'
    | EmailDomainDot      // no '.' after the '@'
    | EmailChars          // a character outside letters, digits and ".@_+-"
    | EmailEdge           // starts with '@', '.', '-' or '_', or ends with '@' or '.'
    | EmailTld            // fewer than two characters after the last '.'
    | EmailLocalLength    // the part before the '@' is too long
    | EmailDomainLength   // the part after the '@' is too long
    | NameLength(field: NameField)
    | NameChars(field: NameField)
    | PhoneDigits         // not all digits (the empty string included)
    | PhoneLength         // not ten characters
    | AddressLength
    | AddressChars

  // ----- email -----

  predicate IsEmailChar(c: char)
  {
    IsAlnum(c) || c == '.' || c == '@' || c == '_' || c == '+' || c == '-'
  }

  /** The characters an email may not start with. */
  predicate BadFirst(c: char) { c == '@' || c == '.' || c == '-' || c == '_' }

  /** The characters an email may not end with. */
  predicate BadLast(c: char) { c == '@' || c == '.' }

  /** The email check, in the program's order. The length comparisons are the
      program's own: `index + 1 > 64` rejects a 64-character local part, and the
      backwards index that finds the '@' counts the '@' itself, so a 255-character
      domain is rejected too. */
  function EmailCheck(email: string): Outcome<FieldError>
  {
    if Count(email, '@') != 1 then Fail(EmailAtCount)
    else if '.' !in AfterLast(email, '@') then Fail(EmailDomainDot)
    else if exists k :: 0 <= k < |email| && !IsEmailChar(email[k]) then Fail(EmailChars)
    else if BadFirst(email[0]) || BadLast(email[|email| - 1]) then Fail(EmailEdge)
    else if |AfterLast(email, '.')| <= 1 then Fail(EmailTld)
    else if |BeforeFirst(email, '@')| >= 64 then Fail(EmailLocalLength)
    else if |AfterLast(email, '@')| >= 255 then Fail(EmailDomainLength)
    else Pass
  }

  /** The scan that appends `email[-1]`, `email[-2]`, ... up to the '@': the
      domain, back to front. */
  method DomainChars(email: string) returns (domainChars: string)
    requires '@' in email
    ensures domainChars == Reverse(AfterLast(email, '@'))
  {
    var at := LastIndexOf(email, '@');
    var index := -1;
    domainChars := [];
    while email[|email| + index] != '@'
      invariant -|email| <= index <= -1
      invariant at <= |email| + index
      invariant domainChars == Reverse(email[|email| + index + 1..])
      decreases |email| + index
    {
      var j := |email| + index;
      assert email[j..][1..] == email[j + 1..];
      domainChars := domainChars + [email[j]];
      index := index - 1;
    }
  }

  /** The scan that appends `email[-1]`, `email[-2]`, ... up to the last '.': the
      top-level domain, back to front. */
  method TldContent(email: string) returns (tldContent: string)
    requires '.' in email
    ensures |tldContent| == |AfterLast(email, '.')|
  {
    var dot := LastIndexOf(email, '.');
    var index := -1;
    tldContent := [];
    while email[|email| + index] != '.'
      invariant -|email| <= index <= -1
      invariant dot <= |email| + index
      invariant |tldContent| == -index - 1
      decreases |email| + index
    {
      tldContent := tldContent + [email[|email| + index]];
      index := index - 1;
    }
  }

  /** The forward scan to the '@': its index is the length of the local part. */
  method LocalEnd(email: string) returns (index: nat)
    requires '@' in email
    ensures index == |BeforeFirst(email, '@')|
  {
    index := 0;
    while email[index] != '@'
      invariant 0 <= index <= IndexOf(email, '@')
      decreases |email| - index
    {
      index := index + 1;
    }
  }

  /** The backward scan to the '@': the negative index it stops at counts the
      domain and the '@' itself. */
  method DomainStart(email: string) returns (index: int)
    requires '@' in email
    ensures index * -1 == |AfterLast(email, '@')| + 1
  {
    var at := LastIndexOf(email, '@');
    index := -1;
    while email[|email| + index] != '@'
      invariant -|email| <= index <= -1
      invariant at <= |email| + index
      decreases |email| + index
    {
      index := index - 1;
    }
  }

  /** `User.check_email`. */
  method CheckEmail(email: string) returns (r: Outcome<FieldError>)
    ensures r == EmailCheck(email)
  {
    var atCount := Count(email, '@');
    if atCount != 1 {
      return Fail(EmailAtCount);
    }
    CountZero(email, '@');

    var domainChars := DomainChars(email);
    ReverseHas(AfterLast(email, '@'), '.');
    CountZero(domainChars, '.');
    if Count(domainChars, '.') < 1 {
      return Fail(EmailDomainDot);
    }

    for k := 0 to |email|
      invariant forall j :: 0 <= j < k ==> IsEmailChar(email[j])
    {
      if !IsEmailChar(email[k]) {
        return Fail(EmailChars);
      }
    }

    if BadFirst(email[0]) || BadLast(email[|email| - 1]) {
      return Fail(EmailEdge);
    }

    var tldContent := TldContent(email);
    if |tldContent| <= 1 {
      return Fail(EmailTld);
    }

    var index := LocalEnd(email);
    if index + 1 > 64 {
      return Fail(EmailLocalLength);
    }

    var domainIndex := DomainStart(email);
    if domainIndex * -1 > 255 {
      return Fail(EmailDomainLength);
    }
    return Pass;
  }

  /** How the pieces `EmailCheck` looks at come out for `local + "@" + domain`. */
  lemma EmailParts(local: string, domain: string)
    requires '@' !in local && '@' !in domain
    ensures var e := local + "@" + domain;
      && Count(e, '@') == 1
      && BeforeFirst(e, '@') == local && AfterLast(e, '@') == domain
      && ((forall k :: 0 <= k < |e| ==> IsEmailChar(e[k])) <==>
          (forall k :: 0 <= k < |local| ==> IsEmailChar(local[k])) &&
          (forall k :: 0 <= k < |domain| ==> IsEmailChar(domain[k])))
      && e[0] == (if local == [] then '@' else local[0])
      && e[|e| - 1] == (if domain == [] then '@' else domain[|domain| - 1])
      && ('.' in domain ==> AfterLast(e, '.') == AfterLast(domain, '.'))
  {
    SplitAtOnly(local, domain, '@');
    EmailCharsSplit(local, domain);
    if '.' in domain {
      assert local + "@" + domain == (local + "@") + domain;
      AfterLastOfSuffix(local + "@", domain, '.');
    }
  }

  lemma EmailCharsSplit(local: string, domain: string)
    ensures var e := local + "@" + domain;
      && ((forall k :: 0 <= k < |e| ==> IsEmailChar(e[k])) <==>
          (forall k :: 0 <= k < |local| ==> IsEmailChar(local[k])) &&
          (forall k :: 0 <= k < |domain| ==> IsEmailChar(domain[k])))
      && e[0] == (if local == [] then '@' else local[0])
      && e[|e| - 1] == (if domain == [] then '@' else domain[|domain| - 1])
  {
    var e := local + "@" + domain;
    assert forall k :: 0 <= k < |local| ==> e[k] == local[k];
    assert forall k :: 0 <= k < |domain| ==> e[|local| + 1 + k] == domain[k];
    assert e[|local|] == '@';
    if (forall k :: 0 <= k < |local| ==> IsEmailChar(local[k])) &&
       (forall k :: 0 <= k < |domain| ==> IsEmailChar(domain[k])) {
      forall k | 0 <= k < |e|
        ensures IsEmailChar(e[k])
      {
        if k > |local| {
          assert e[k] == domain[k - |local| - 1];
        }
      }
    }
  }

  /** The last character of the text after the last '.' ends the whole string. */
  lemma AfterLastEnds(s: string, c: char)
    requires AfterLast(s, c) != []
    ensures s[|s| - 1] == AfterLast(s, c)[|AfterLast(s, c)| - 1]
  {
  }

  /** What an accepted email looks like, stated on its two halves. */
  predicate WellFormedEmail(local: string, domain: string)
  {
    && 1 <= |local| <= 63
    && local[0] != '.' && local[0] != '-' && local[0] != '_'
    && (forall k :: 0 <= k < |local| ==> IsEmailChar(local[k]))
    && (forall k :: 0 <= k < |domain| ==> IsEmailChar(domain[k]))
    && '.' in domain
    && |AfterLast(domain, '.')| >= 2
    && |domain| <= 254
  }

  /** An email with one '@' passes exactly when its halves are well formed:
      at most 63 characters before the '@' and at most 254 after it. */
  lemma EmailAcceptedIff(local: string, domain: string)
    requires '@' !in local && '@' !in domain
    ensures EmailCheck(local + "@" + domain) == Pass <==> WellFormedEmail(local, domain)
  {
    if EmailCheck(local + "@" + domain) == Pass {
      AcceptedIsWellFormed(local, domain);
    }
    if WellFormedEmail(local, domain) {
      WellFormedIsAccepted(local, domain);
    }
  }

  lemma AcceptedIsWellFormed(local: string, domain: string)
    requires '@' !in local && '@' !in domain
    requires EmailCheck(local + "@" + domain) == Pass
    ensures WellFormedEmail(local, domain)
  {
    EmailParts(local, domain);
    if '.' in domain && AfterLast(domain, '.') != [] {
      AfterLastEnds(domain, '.');
    }
  }

  lemma WellFormedIsAccepted(local: string, domain: string)
    requires '@' !in local && '@' !in domain
    requires WellFormedEmail(local, domain)
    ensures EmailCheck(local + "@" + domain) == Pass
  {
    var e := local + "@" + domain;
    EmailParts(local, domain);
    AfterLastEnds(domain, '.');
    assert e[|e| - 1] in AfterLast(domain, '.');
    PassingEmail(e);
  }

  /** The email check passes when each of its tests does. */
  lemma PassingEmail(e: string)
    requires Count(e, '@') == 1 && '.' in AfterLast(e, '@')
    requires forall k :: 0 <= k < |e| ==> IsEmailChar(e[k])
    requires e != [] && !BadFirst(e[0]) && !BadLast(e[|e| - 1])
    requires |AfterLast(e, '.')| > 1 && |BeforeFirst(e, '@')| < 64 && |AfterLast(e, '@')| < 255
    ensures EmailCheck(e) == Pass
  {
  }

  /** Without exactly one '@' an email is refused before anything else is looked at. */
  lemma EmailNeedsOneAt(email: string)
    ensures EmailCheck(email) == Pass ==>
      exists local, domain :: '@' !in local && '@' !in domain && email == local + "@" + domain
  {
    if EmailCheck(email) == Pass {
      CountZero(email, '@');
      var k := IndexOf(email, '@');
      var local, domain := email[..k], email[k + 1..];
      assert email == local + "@" + domain;
      CountAppend(local + "@", domain, '@');
      CountAppend(local, "@", '@');
      assert "@"[..0] == [];
      CountZero(domain, '@');
    }
  }

  /** The limits sit one below RFC 5321's: a 63-character local part is accepted
      and a 64-character one is refused; a 254-character domain is accepted and
      a 255-character one is refused. */
  lemma EmailLengthLimits(local: string, domain: string)
    requires '@' !in local && '@' !in domain
    requires 1 <= |local| && local[0] != '.' && local[0] != '-' && local[0] != '_'
    requires forall k :: 0 <= k < |local| ==> IsEmailChar(local[k])
    requires forall k :: 0 <= k < |domain| ==> IsEmailChar(domain[k])
    requires '.' in domain && |AfterLast(domain, '.')| >= 2
    ensures |local| <= 63 && |domain| <= 254 ==> EmailCheck(local + "@" + domain) == Pass
    ensures |local| == 64 ==> EmailCheck(local + "@" + domain) == Fail(EmailLocalLength)
    ensures |local| <= 63 && |domain| == 255 ==> EmailCheck(local + "@" + domain) == Fail(EmailDomainLength)
  {
    EmailParts(local, domain);
    AfterLastEnds(domain, '.');
    EmailAcceptedIff(local, domain);
  }

  // ----- names -----

  predicate IsNameChar(c: char)
  {
    IsLetter(c) || c == ' ' || c == '-' || c == '\''
  }

  /** `check_first_name` and `check_last_name`, which differ only in the message:
      the length is checked first, then every character. */
  function CheckName(name: string, field: NameField): (r: Outcome<FieldError>)
    ensures r == Pass <==> 2 <= |name| <= 40 && forall k :: 0 <= k < |name| ==> IsNameChar(name[k])
    ensures r.Fail? && (2 <= |name| <= 40) ==> r == Fail(NameChars(field))
    ensures !(2 <= |name| <= 40) ==> r == Fail(NameLength(field))
  {
    if !(2 <= |name| <= 40) then Fail(NameLength(field))
    else if exists k :: 0 <= k < |name| && !IsNameChar(name[k]) then Fail(NameChars(field))
    else Pass
  }

  /** What the record stores for a name: `name.title().strip()`. */
  function NormaliseName(name: string): string
  {
    Strip(Title(name))
  }

  /** A stored name is titled and has no surrounding whitespace, and
      normalising it again changes nothing. */
  lemma NormaliseNameSpec(name: string)
    ensures IsTitled(NormaliseName(name)) && Trimmed(NormaliseName(name))
    ensures NormaliseName(NormaliseName(name)) == NormaliseName(name)
  {
    TitleSpec(name);
    StripTitled(Title(name));
    TitledFixed(NormaliseName(name));
    StripIdempotent(Title(name));
  }

  /** Capitalisation never changes the verdict of a name check. */
  lemma CheckNameIgnoresCase(name: string, field: NameField)
    ensures CheckName(Title(name), field) == CheckName(name, field)
  {
    TitleSpec(name);
    var t := Title(name);
    forall k | 0 <= k < |name|
      ensures IsNameChar(t[k]) <==> IsNameChar(name[k])
    {
    }
  }

  // ----- phone -----

  /** `str.isdigit` on ASCII: non-empty and all digits. */
  predicate IsDigits(s: string)
  {
    |s| > 0 && forall k :: 0 <= k < |s| ==> IsDigit(s[k])
  }

  /** `check_phone_number`. */
  function CheckPhone(phone: string): (r: Outcome<FieldError>)
    ensures r == Pass <==> |phone| == 10 && forall k :: 0 <= k < 10 ==> IsDigit(phone[k])
    ensures phone == [] ==> r == Fail(PhoneDigits)
  {
    if !IsDigits(phone) then Fail(PhoneDigits)
    else if |phone| != 10 then Fail(PhoneLength)
    else Pass
  }

  // ----- address -----

  predicate IsAddressChar(c: char)
  {
    IsAlnum(c) || c == ' ' || c == '.' || c == ',' || c == '-'
  }

  /** `check_and_reformat_address`: both checks are made on the input, then the
      collapse of equal adjacent special characters is returned unchecked. */
  function AddressCheck(address: string): Result<string, FieldError>
  {
    if !(10 <= |address| <= 100) then Failure(AddressLength)
    else if exists k :: 0 <= k < |address| && !IsAddressChar(address[k]) then Failure(AddressChars)
    else Success(Collapsed(address))
  }

  /** `check_and_reformat_address` with its loop over a working copy: at every
      pair of equal adjacent special characters the leftmost copy of that
      character still in the copy is removed. */
  method CheckAndReformatAddress(address: string) returns (r: Result<string, FieldError>)
    ensures r == AddressCheck(address)
  {
    if !(10 <= |address| <= 100) {
      return Failure(AddressLength);
    }
    for k := 0 to |address|
      invariant forall j :: 0 <= j < k ==> IsAddressChar(address[j])
    {
      if !IsAddressChar(address[k]) {
        return Failure(AddressChars);
      }
    }
    var newAddress := address;
    SurvivorsInitial(address);
    for index := 0 to |address|
      invariant newAddress == Survivors(address, index)
    {
      SurvivorsStep(address, index);
      if index < |address| - 1 {
        if address[index] == address[index + 1] && !IsAlnum(address[index]) {
          newAddress := RemoveFirst(newAddress, address[index]);
        }
      }
    }
    return Success(newAddress);
  }

  /** An address is accepted exactly when its length and characters are right,
      and the result keeps every letter and digit and, of every other character,
      all but as many copies as the address has equal adjacent pairs of it. */
  lemma AddressCheckSpec(address: string, c: char)
    ensures AddressCheck(address).Success? <==>
      10 <= |address| <= 100 && forall k :: 0 <= k < |address| ==> IsAddressChar(address[k])
    ensures AddressCheck(address).Success? ==>
      Count(AddressCheck(address).value, c) ==
        Count(address, c) - (if IsAlnum(c) then 0 else Pairs(address, |address|, c))
  {
    CollapsedCount(address, c);
  }

  /** The result is not checked again, so it can be shorter than ten characters. */
  lemma AddressMayShrinkBelowMinimum()
    ensures AddressCheck("ab........") == Success("ab.")
  {
    DotsAllowed();
    DotsCollapse();
  }

  lemma DotsAllowed()
    ensures forall k :: 0 <= k < |"ab........"| ==> IsAddressChar("ab........"[k])
  {
  }

  lemma DotsCollapse()
    ensures Collapsed("ab........") == "ab."
  {
    assert "ab........" == "ab" + Repeat('.', 8) + "";
    assert "ab" + ['.'] + "" == "ab.";
    CollapseSingleRun("ab", '.', 8, "");
  }

  /** The address with runs of three spaces, three dots and three commas is
      accepted and each run shrinks to one copy. */
  lemma AddressRunsShrink()
    ensures AddressCheck("1223   main-Street... of O,,,Connor") == Success("1223 main-Street. of O,Connor")
  {
    AddressCharsAllowed();
    CollapseMainStreet();
  }

  lemma AddressCharsAllowed()
    ensures forall k :: 0 <= k < |"1223   main-Street... of O,,,Connor"| ==>
      IsAddressChar("1223   main-Street... of O,,,Connor"[k])
  {
  }

  // ----- the record -----

  /** A user record as it is kept once construction has succeeded. */
  datatype User = User(email: string, firstName: string, lastName: string,
                       phoneNumber: string, address: string)

  /** `User.__init__`: the email is lower-cased and checked; the first name is
      stored normalised but checked as given; the last name is stored normalised
      and checked only when that is non-empty; the phone is stored as given and
      checked only when non-empty; the address is stripped and, when non-empty,
      checked and collapsed. The first failing check decides the error. */
  function NewUser(email: string, firstName: string, lastName: string,
                   phoneNumber: string, address: string): Result<User, FieldError>
  {
    var e := Lower(email);
    var last := NormaliseName(lastName);
    var addr := Strip(address);
    if EmailCheck(e).Fail? then Failure(EmailCheck(e).error)
    else if CheckName(firstName, First).Fail? then Failure(CheckName(firstName, First).error)
    else if last != [] && CheckName(last, Last).Fail? then Failure(CheckName(last, Last).error)
    else if phoneNumber != [] && CheckPhone(phoneNumber).Fail? then Failure(CheckPhone(phoneNumber).error)
    else if addr == [] then Success(User(e, NormaliseName(firstName), last, phoneNumber, addr))
    else if AddressCheck(addr).Failure? then Failure(AddressCheck(addr).error)
    else Success(User(e, NormaliseName(firstName), last, phoneNumber, AddressCheck(addr).value))
  }

  /** `User.__init__`, field by field. */
  method Create(email: string, firstName: string, lastName: string,
                phoneNumber: string, address: string) returns (r: Result<User, FieldError>)
    ensures r == NewUser(email, firstName, lastName, phoneNumber, address)
  {
    var emailValue := Lower(email);
    var emailOk := CheckEmail(emailValue);
    if emailOk.Fail? {
      return Failure(emailOk.error);
    }

    var firstValue := NormaliseName(firstName);
    var firstOk := CheckName(firstName, First);
    if firstOk.Fail? {
      return Failure(firstOk.error);
    }

    var lastValue := NormaliseName(lastName);
    if lastValue != [] {
      var lastOk := CheckName(lastValue, Last);
      if lastOk.Fail? {
        return Failure(lastOk.error);
      }
    }

    var phoneValue := phoneNumber;
    if phoneValue != [] {
      var phoneOk := CheckPhone(phoneValue);
      if phoneOk.Fail? {
        return Failure(phoneOk.error);
      }
    }

    var addressValue := Strip(address);
    if addressValue != [] {
      var reformatted := CheckAndReformatAddress(addressValue);
      if reformatted.Failure? {
        return Failure(reformatted.error);
      }
      addressValue := reformatted.value;
    }
    return Success(User(emailValue, firstValue, lastValue, phoneValue, addressValue));
  }

  /** The form a constructed record is in: a lower-case email that passes the
      email check, titled names without surrounding whitespace (the last one
      valid or empty), a phone that is valid or empty and kept as given, and an
      address that is empty or the collapse of the stripped, checked input. */
  lemma NewUserNormalForm(email: string, firstName: string, lastName: string,
                          phoneNumber: string, address: string)
    requires NewUser(email, firstName, lastName, phoneNumber, address).Success?
    ensures var u := NewUser(email, firstName, lastName, phoneNumber, address).value;
      && u.email == Lower(email) && IsLowerCase(u.email) && EmailCheck(u.email) == Pass
      && CheckName(firstName, First) == Pass
      && u.firstName == NormaliseName(firstName) && IsTitled(u.firstName) && Trimmed(u.firstName)
      && u.lastName == NormaliseName(lastName) && IsTitled(u.lastName) && Trimmed(u.lastName)
      && (u.lastName == [] || CheckName(u.lastName, Last) == Pass)
      && u.phoneNumber == phoneNumber && (u.phoneNumber == [] || CheckPhone(u.phoneNumber) == Pass)
      && (u.address == [] <==> Strip(address) == [])
      && (u.address != [] ==> AddressCheck(Strip(address)) == Success(u.address))
  {
    LowerSpec(email);
    NormaliseNameSpec(firstName);
    NormaliseNameSpec(lastName);
    var addr := Strip(address);
    if addr != [] {
      CollapsedNonEmpty(addr);
    }
  }

  /** The first name is checked before it is normalised, so a first name of 2 to
      40 spaces passes the check and is stored empty. */
  lemma FirstNameMayBeStoredEmpty(email: string, blank: string)
    requires EmailCheck(Lower(email)) == Pass
    requires 2 <= |blank| <= 40 && forall k :: 0 <= k < |blank| ==> blank[k] == ' '
    ensures NewUser(email, blank, "", "", "") == Success(User(Lower(email), "", "", "", ""))
  {
    assert CheckName(blank, First) == Pass;
    BlankNormalises(blank);
    BlankNormalises("");
  }

  /** A name made of whitespace is normalised to nothing. */
  lemma BlankNormalises(s: string)
    requires AllSpace(s)
    ensures NormaliseName(s) == [] && Strip(s) == []
  {
    TitleSpec(s);
    assert Title(s) == s;
    assert s + [] + [] == s;
    StripCharacterised(s, [], []);
  }

  // ----- to_dict and __str__ -----

  const EmailKey := "email"
  const FirstNameKey := "first_name"
  const LastNameKey := "last_name"
  const PhoneNumberKey := "phone_number"
  const AddressKey := "address"

  /** The five keys of a stored record. */
  const FieldNames: set<string> := {EmailKey, FirstNameKey, LastNameKey, PhoneNumberKey, AddressKey}

  /** `to_dict`: the five fields under their keys, unset ones as "". */
  function ToDict(u: User): (d: map<string, string>)
    ensures d.Keys == FieldNames
  {
    map[EmailKey := u.email, FirstNameKey := u.firstName, LastNameKey := u.lastName,
        PhoneNumberKey := u.phoneNumber, AddressKey := u.address]
  }

  /** The dictionary gives every field back, so two records with the same
      dictionary are the same record. */
  lemma ToDictRoundTrip(u: User, v: User)
    ensures FromDict(ToDict(u)) == u
    ensures ToDict(u) == ToDict(v) ==> u == v
  {
    assert FromDict(ToDict(v)) == v;
  }

  /** Reads a record back from a dictionary holding the five keys. */
  function FromDict(d: map<string, string>): User
    requires FieldNames <= d.Keys
  {
    User(d[EmailKey], d[FirstNameKey], d[LastNameKey], d[PhoneNumberKey], d[AddressKey])
  }

  /** `__str__`: one line per field, the optional ones only when non-empty. */
  function Describe(u: User): string
  {
    "Email: " + u.email
    + Line("First name: ", u.firstName)
    + (if u.lastName != [] then Line("Last name: ", u.lastName) else "")
    + (if u.phoneNumber != [] then Line("Phone number: ", u.phoneNumber) else "")
    + (if u.address != [] then Line("Address: ", u.address) else "")
  }

  /** A line break, a caption and a value. */
  function Line(caption: string, value: string): string
  {
    "\n" + caption + value
  }

  /** No field holds a line break. */
  predicate SingleLineFields(u: User)
  {
    '\n' !in u.email && '\n' !in u.firstName && '\n' !in u.lastName
    && '\n' !in u.phoneNumber && '\n' !in u.address
  }

  lemma {:induction false} LineBreaks(caption: string, value: string)
    requires '\n' !in caption && '\n' !in value
    ensures Count(Line(caption, value), '\n') == 1
  {
    CountAppend("\n" + caption, value, '\n');
    CountAppend("\n", caption, '\n');
    CountZero(caption, '\n');
    CountZero(value, '\n');
    assert "\n"[..0] == [];
  }

  /** The description has the email line, the first-name line and one more
      line for each optional field that is set. */
  lemma {:induction false} DescribeLines(u: User)
    requires SingleLineFields(u)
    ensures Count(Describe(u), '\n') ==
      1 + (if u.lastName != [] then 1 else 0) + (if u.phoneNumber != [] then 1 else 0)
        + (if u.address != [] then 1 else 0)
  {
    var head := "Email: " + u.email + Line("First name: ", u.firstName);
    var last := if u.lastName != [] then Line("Last name: ", u.lastName) else "";
    var phone := if u.phoneNumber != [] then Line("Phone number: ", u.phoneNumber) else "";
    var addr := if u.address != [] then Line("Address: ", u.address) else "";
    assert Describe(u) == head + last + phone + addr;
    CaptionsHaveNoBreak();
    HeadBreaks(u);
    OptionalBreaks("Last name: ", u.lastName);
    OptionalBreaks("Phone number: ", u.phoneNumber);
    OptionalBreaks("Address: ", u.address);
    CountAppend(head, last, '\n');
    CountAppend(head + last, phone, '\n');
    CountAppend(head + last + phone, addr, '\n');
  }

  lemma CaptionsHaveNoBreak()
    ensures '\n' !in "Last name: " && '\n' !in "Phone number: " && '\n' !in "Address: "
  {
  }

  lemma HeadBreaks(u: User)
    requires '\n' !in u.email && '\n' !in u.firstName
    ensures Count("Email: " + u.email + Line("First name: ", u.firstName), '\n') == 1
  {
    CountZero("Email: ", '\n');
    CountZero(u.email, '\n');
    CountAppend("Email: ", u.email, '\n');
    LineBreaks("First name: ", u.firstName);
    CountAppend("Email: " + u.email, Line("First name: ", u.firstName), '\n');
  }

  lemma OptionalBreaks(caption: string, value: string)
    requires '\n' !in caption && '\n' !in value
    ensures Count(if value != [] then Line(caption, value) else "", '\n') == if value != [] then 1 else 0
  {
    if value != [] {
      LineBreaks(caption, value);
    }
  }

  /** Every record the constructor builds describes itself one field per line. */
  lemma NewUserSingleLine(email: string, firstName: string, lastName: string,
                          phoneNumber: string, address: string)
    requires NewUser(email, firstName, lastName, phoneNumber, address).Success?
    ensures SingleLineFields(NewUser(email, firstName, lastName, phoneNumber, address).value)
  {
    NewUserNormalForm(email, firstName, lastName, phoneNumber, address);
    NormalFormSingleLine(NewUser(email, firstName, lastName, phoneNumber, address).value,
                         firstName, lastName, address);
  }

  lemma NormalFormSingleLine(u: User, firstName: string, lastName: string, address: string)
    requires EmailCheck(u.email) == Pass
    requires CheckName(firstName, First) == Pass && u.firstName == NormaliseName(firstName)
    requires u.lastName == NormaliseName(lastName)
    requires u.lastName == [] || CheckName(u.lastName, Last) == Pass
    requires u.phoneNumber == [] || CheckPhone(u.phoneNumber) == Pass
    requires u.address != [] ==> AddressCheck(Strip(address)) == Success(u.address)
    ensures SingleLineFields(u)
  {
    EmailHasNoBreak(u.email);
    NameHasNoBreak(firstName);
    if u.lastName != [] {
      NameHasNoBreak(lastName);
    }
    AddressHasNoBreak(address, u.address);
  }

  lemma AddressHasNoBreak(address: string, stored: string)
    requires stored != [] ==> AddressCheck(Strip(address)) == Success(stored)
    ensures '\n' !in stored
  {
    if stored != [] {
      CollapsedAbsent(Strip(address), '\n');
    }
  }

  lemma EmailHasNoBreak(email: string)
    requires EmailCheck(email) == Pass
    ensures '\n' !in email
  {
  }

  /** A name that passes the check, or whose normal form does, has no line break
      in its normal form. */
  lemma NameHasNoBreak(name: string)
    requires CheckName(name, First) == Pass || CheckName(NormaliseName(name), Last) == Pass
    ensures '\n' !in NormaliseName(name)
  {
    TitleSpec(name);
    StripIsSlice(Title(name));
  }
}
