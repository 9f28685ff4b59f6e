/**
 * The contact value model: one smart constructor per field class (`Name`,
 * `Phone`, `Email`, `Address`, `Birthday`), the `Contact` record built from
 * them, and its dictionary form (`to_dict` / `from_dict`).
 *
 * A field's stored `.value` is what the constructors return.  The fresh
 * identifier `uuid4()` would produce is the `freshId` parameter.  Optional
 * arguments are strings in which `""` stands for both `None` and the empty
 * string, since the constructor treats every falsy argument alike.
 */
module ContactModel {
  import opened Options
  import opened Errors
  import opened Strings
  import opened Dates
  import opened Seqs
  import opened Validators

  /** The `.value` of a `Birthday` field: `None`, a date, or (after a
      partial update has written into it) a raw string. */
  datatype BirthdayValue = NoDate | OnDate(date: CalendarDate) | RawText(text: string)

  datatype Contact = Contact(
    id: Id,
    name: string,
    phone: Option<string>,
    email: Option<string>,
    address: Option<string>,
    birthday: Option<BirthdayValue>)

  /** `Name(value)`: blank names are refused; the trimmed name is stored. */
  function NameField(value: string): (r: Result<string>)
    ensures r.Ok? <==> !AllSpace(value)
    ensures r.Err? ==> r.error == EmptyValue("name")
    ensures r.Ok? ==> r.value != "" && Strip(r.value) == r.value && r.value == Strip(value)
  {
    StripIdempotent(value);
    if AllSpace(value) then Err(EmptyValue("name")) else Ok(Strip(value))
  }

  /** `Phone(value)`: blank input is refused, the trimmed input must pass
      `is_phone`, and the ten digits are stored. */
  function PhoneField(value: string): (r: Result<string>)
    ensures AllSpace(value) ==> r == Err(EmptyValue("phone"))
    ensures !AllSpace(value) ==> (r.Ok? <==> TenDigits(RemoveFormatting(value)))
    ensures !AllSpace(value) && r.Err? ==> r.error == InvalidPhone(Strip(value))
    ensures r.Ok? ==> TenDigits(r.value) && r.value == NormalizePhone(value)
  {
    NormalizeIgnoresStrip(value);
    NormalizeIgnoresStrip(Strip(value));
    StripIdempotent(value);
    if AllSpace(value) then Err(EmptyValue("phone"))
    else match IsPhone(Strip(value))
      case Err(e) => Err(e)
      case Ok(_) => Ok(NormalizePhone(value))
  }

  /** Ten digits are stored as they are. */
  lemma PhoneFieldKeepsDigits(p: string)
    requires TenDigits(p)
    ensures PhoneField(p) == Ok(p)
  {
    assert !IsSpace(p[0]);
    DigitsKept(p);
    NormalizeIgnoresStrip(p);
  }

  /** `Email(value)`: blank input is refused, the trimmed input must match
      the email pattern, and it is stored trimmed and lower-cased. */
  function EmailField(value: string): (r: Result<string>)
    ensures AllSpace(value) ==> r == Err(EmptyValue("email"))
    ensures !AllSpace(value) ==> (r.Ok? <==> MatchesEmailPattern(Strip(value)))
    ensures !AllSpace(value) && r.Err? ==> r.error == InvalidEmail(Strip(value))
    ensures r.Ok? ==> r.value == Lower(Strip(value))
    ensures r.Ok? ==> MatchesEmailPattern(r.value) && Lower(r.value) == r.value && Strip(r.value) == r.value
  {
    StripIdempotent(value);
    if AllSpace(value) then Err(EmptyValue("email"))
    else match IsEmail(Strip(value))
      case Err(e) => Err(e)
      case Ok(_) =>
        EmailPatternLower(Strip(value));
        LowerIdempotent(Strip(value));
        LowerKeepsStrip(Strip(value));
        Ok(Lower(Strip(value)))
  }

  /** A stored address is stored again unchanged. */
  lemma EmailFieldKeepsStored(e: string)
    requires MatchesEmailPattern(e) && Lower(e) == e && Strip(e) == e
    ensures EmailField(e) == Ok(e)
  {
    var a, d :| EmailAt(e, a, d);
    assert !IsSpace(e[0]);
  }

  /** `Address(value)`: the trimmed value, `""` for blank input. */
  function AddressField(value: string): (r: string)
    ensures Strip(r) == r
    ensures r == "" <==> AllSpace(value)
    ensures r != "" ==> exists i, j :: 0 <= i <= j <= |value| && AllSpace(value[..i]) && AllSpace(value[j..]) && r == value[i..j]
  {
    StripIdempotent(value);
    StripParts(value);
    if value == "" then "" else Strip(value)
  }

  /** `Birthday(value)`: `DD.MM.YYYY` when the input holds a `.`, otherwise
      `YYYY-MM-DD` when it holds a `-`, otherwise a format error. */
  function BirthdayField(value: string): (r: Result<BirthdayValue>)
    ensures value == "" ==> r == Ok(NoDate)
    ensures r.Err? ==> r.error == BadBirthdayFormat
    ensures r.Ok? && value != "" ==> r.value.OnDate?
    ensures '.' in value ==>
      (r.Ok? <==> StrPTime(Strip(value), DayMonthYear('.')).Some?) &&
      (r.Ok? ==> r.value == OnDate(StrPTime(Strip(value), DayMonthYear('.')).value))
    ensures '.' !in value && '-' in value ==>
      (r.Ok? <==> StrPTime(Strip(value), YearMonthDay('-')).Some?) &&
      (r.Ok? ==> r.value == OnDate(StrPTime(Strip(value), YearMonthDay('-')).value))
    ensures value != "" && '.' !in value && '-' !in value ==> r.Err?
  {
    if value == "" then Ok(NoDate)
    else
      var format := if '.' in value then Some(DayMonthYear('.'))
                    else if '-' in value then Some(YearMonthDay('-'))
                    else None;
      match format
      case None => Err(BadBirthdayFormat)
      case Some(f) =>
        match StrPTime(Strip(value), f)
        case None => Err(BadBirthdayFormat)
        case Some(d) => Ok(OnDate(d))
  }

  /** `str(birthday)`: `DD.MM.YYYY` for a date, `""` for a falsy value; a
      non-empty string has no `strftime`. */
  function BirthdayText(b: BirthdayValue): (r: Result<string>)
    ensures r.Ok? <==> !(b.RawText? && b.text != "")
    ensures r.Err? ==> r.error == NoSuchAttribute("birthday")
    ensures r == Ok("") <==> b.NoDate? || b == RawText("")
    ensures b.OnDate? ==> r == Ok(FormatDate(b.date))
    ensures r.Ok? && b.OnDate? ==> '.' in r.value
  {
    match b
    case NoDate => Ok("")
    case OnDate(d) =>
      var s := FormatDate(d);
      assert s[2] == '.';
      Ok(s)
    case RawText(t) => if t == "" then Ok("") else Err(NoSuchAttribute("birthday"))
  }

  /** A date rendered by `__str__` is read back by the constructor. */
  lemma BirthdayRoundTrip(d: CalendarDate)
    requires d.year >= 1000
    ensures BirthdayText(OnDate(d)).Ok?
    ensures BirthdayField(BirthdayText(OnDate(d)).value) == Ok(OnDate(d))
  {
    var s := FormatDate(d);
    assert s[2] == '.' && IsDigit(s[0]);
    DecimalFourDigits(d.year);
    assert IsDigit(s[|s| - 1]);
    StripUnchanged(s);
    FormatDateRoundTrip(d);
  }

  /** What the `Contact` constructor guarantees about its fields. */
  ghost predicate WellFormedContact(c: Contact) {
    && c.name != "" && Strip(c.name) == c.name
    && (c.phone.Some? ==> TenDigits(c.phone.value))
    && (c.email.Some? ==> MatchesEmailPattern(c.email.value) && Lower(c.email.value) == c.email.value && Strip(c.email.value) == c.email.value)
    && (c.address.Some? ==> Strip(c.address.value) == c.address.value)
    && (c.birthday.Some? ==> c.birthday.value.OnDate?)
  }

  /** `X(value) if value else None` for an optional field. */
  function OptionalField<T>(value: string, field: Result<T>): Result<Option<T>> {
    if value == "" then Ok(None)
    else match field
      case Err(e) => Err(e)
      case Ok(v) => Ok(Some(v))
  }

  /** Every supplied field the `Contact` constructor builds accepts its
      argument. */
  predicate FieldsAccepted(name: string, phone: string, email: string, birthday: string) {
    && NameField(name).Ok?
    && (phone == "" || PhoneField(phone).Ok?)
    && (email == "" || EmailField(email).Ok?)
    && (birthday == "" || BirthdayField(birthday).Ok?)
  }

  /** `Contact(name, phone, email, address, birthday, contact_id)`: the
      fields are built in that order and the first refusal is raised. */
  function NewContact(name: string, phone: string, email: string, address: string, birthday: string,
                      contactId: Option<Id>, freshId: Id): (r: Result<Contact>)
    ensures r.Ok? <==> FieldsAccepted(name, phone, email, birthday)
    ensures NameField(name).Err? ==> r == Err(EmptyValue("name"))
    ensures NameField(name).Ok? && phone != "" && PhoneField(phone).Err? ==>
      r == Err(PhoneField(phone).error)
    ensures NameField(name).Ok? && (phone == "" || PhoneField(phone).Ok?) && email != "" && EmailField(email).Err? ==>
      r == Err(EmailField(email).error)
    ensures && NameField(name).Ok? && (phone == "" || PhoneField(phone).Ok?) && (email == "" || EmailField(email).Ok?)
            && birthday != "" && BirthdayField(birthday).Err? ==>
      r == Err(BirthdayField(birthday).error)
    ensures r.Ok? && phone != "" ==> r.value.phone == Some(PhoneField(phone).value)
    ensures r.Ok? && email != "" ==> r.value.email == Some(EmailField(email).value)
    ensures r.Ok? && address != "" ==> r.value.address == Some(AddressField(address))
    ensures r.Ok? && birthday != "" ==> r.value.birthday == Some(BirthdayField(birthday).value)
    ensures r.Ok? ==> WellFormedContact(r.value)
    ensures r.Ok? ==> r.value.id == contactId.GetOr(freshId) && r.value.name == Strip(name)
    ensures r.Ok? ==>
      && (r.value.phone.None? <==> phone == "")
      && (r.value.email.None? <==> email == "")
      && (r.value.address.None? <==> address == "")
      && (r.value.birthday.None? <==> birthday == "")
  {
    var id := if contactId.Some? then contactId.value else freshId;
    var n :- NameField(name);
    var p :- OptionalField(phone, PhoneField(phone));
    var e :- OptionalField(email, EmailField(email));
    var a := if address == "" then None else Some(AddressField(address));
    var b :- OptionalField(birthday, BirthdayField(birthday));
    Ok(Contact(id, n, p, e, a, b))
  }

  /** The dictionary `to_dict` produces and `from_dict` reads; `None` in a
      field is a missing key or a `None` entry. */
  datatype ContactRecord = ContactRecord(
    id: Option<Id>,
    name: Option<string>,
    phone: Option<string>,
    email: Option<string>,
    address: Option<string>,
    birthday: Option<string>)

  /** `to_dict`: absent fields become `None`, present ones their text. */
  function ToRecord(c: Contact): (r: Result<ContactRecord>)
    ensures r.Ok? <==> !(c.birthday.Some? && c.birthday.value.RawText? && c.birthday.value.text != "")
    ensures r.Err? ==> r.error == NoSuchAttribute("birthday")
    ensures r.Ok? ==> r.value.id == Some(c.id) && r.value.name == Some(c.name)
    ensures r.Ok? ==> r.value.phone == c.phone && r.value.email == c.email && r.value.address == c.address
    ensures r.Ok? ==> (r.value.birthday.None? <==> c.birthday.None?)
    ensures r.Ok? && c.birthday.Some? ==> r.value.birthday == Some(BirthdayText(c.birthday.value).value)
  {
    var b :- match c.birthday
      case None => Ok(None)
      case Some(v) => (match BirthdayText(v) case Ok(s) => Ok(Some(s)) case Err(e) => Err(e));
    Ok(ContactRecord(Some(c.id), Some(c.name), c.phone, c.email, c.address, b))
  }

  /** `from_dict`: the name key is required; a record without an id gets
      the fresh one. */
  function FromRecord(rec: ContactRecord, freshId: Id): (r: Result<Contact>)
    ensures rec.name.None? ==> r == Err(MissingKey("name"))
    ensures rec.name.Some? ==>
      (r.Ok? <==> FieldsAccepted(rec.name.value, rec.phone.GetOr(""), rec.email.GetOr(""), rec.birthday.GetOr("")))
    ensures r.Ok? ==> WellFormedContact(r.value) && r.value.id == rec.id.GetOr(freshId)
    ensures r.Ok? ==> r.value.name == Strip(rec.name.value)
    ensures r.Ok? ==> (r.value.phone.None? <==> rec.phone.GetOr("") == "")
    ensures r.Ok? && rec.phone.GetOr("") != "" ==> r.value.phone == Some(PhoneField(rec.phone.GetOr("")).value)
    ensures r.Ok? ==> (r.value.email.None? <==> rec.email.GetOr("") == "")
    ensures r.Ok? && rec.email.GetOr("") != "" ==> r.value.email == Some(EmailField(rec.email.GetOr("")).value)
    ensures r.Ok? ==> (r.value.address.None? <==> rec.address.GetOr("") == "")
    ensures r.Ok? && rec.address.GetOr("") != "" ==> r.value.address == Some(AddressField(rec.address.GetOr("")))
    ensures r.Ok? ==> (r.value.birthday.None? <==> rec.birthday.GetOr("") == "")
    ensures r.Ok? && rec.birthday.GetOr("") != "" ==> r.value.birthday == Some(BirthdayField(rec.birthday.GetOr("")).value)
  {
    if rec.name.None? then Err(MissingKey("name"))
    else NewContact(rec.name.value, rec.phone.GetOr(""), rec.email.GetOr(""), rec.address.GetOr(""),
                    rec.birthday.GetOr(""), rec.id, freshId)
  }

  /** Writing a contact out and reading it back gives the same contact,
      unless its address is empty (written as `""`, read as absent) or its
      birthday year has fewer than four digits. */
  lemma ContactRoundTrip(c: Contact, freshId: Id)
    requires WellFormedContact(c)
    requires c.address != Some("")
    requires c.birthday.Some? ==> c.birthday.value.date.year >= 1000
    ensures ToRecord(c).Ok?
    ensures FromRecord(ToRecord(c).value, freshId) == Ok(c)
  {
    var b := if c.birthday.Some? then BirthdayText(c.birthday.value).value else "";
    var rec := ToRecord(c).value;
    assert rec.birthday.GetOr("") == b;
    assert FromRecord(rec, freshId) ==
      NewContact(c.name, c.phone.GetOr(""), c.email.GetOr(""), c.address.GetOr(""), b, Some(c.id), freshId);
    StoredFieldsRebuild(c, b, freshId);
  }

  /** Constructing a contact from the values a well-formed contact stores
      (its birthday as written by `str`) gives that contact back. */
  lemma StoredFieldsRebuild(c: Contact, b: string, freshId: Id)
    requires WellFormedContact(c)
    requires c.address != Some("")
    requires c.birthday.Some? ==> c.birthday.value.date.year >= 1000
    requires b == if c.birthday.Some? then BirthdayText(c.birthday.value).value else ""
    ensures NewContact(c.name, c.phone.GetOr(""), c.email.GetOr(""), c.address.GetOr(""), b, Some(c.id), freshId) == Ok(c)
  {
    assert !IsSpace(c.name[0]);
    assert NameField(c.name) == Ok(c.name);
    StoredPhoneRebuilt(c.phone);
    StoredEmailRebuilt(c.email);
    StoredAddressRebuilt(c.address);
    StoredBirthdayRebuilt(c.birthday, b);
  }

  lemma StoredPhoneRebuilt(phone: Option<string>)
    requires phone.Some? ==> TenDigits(phone.value)
    ensures OptionalField(phone.GetOr(""), PhoneField(phone.GetOr(""))) == Ok(phone)
  {
    if phone.Some? {
      PhoneFieldKeepsDigits(phone.value);
    }
  }

  lemma StoredEmailRebuilt(email: Option<string>)
    requires email.Some? ==> MatchesEmailPattern(email.value) && Lower(email.value) == email.value && Strip(email.value) == email.value
    ensures OptionalField(email.GetOr(""), EmailField(email.GetOr(""))) == Ok(email)
  {
    if email.Some? {
      EmailFieldKeepsStored(email.value);
    }
  }

  lemma StoredAddressRebuilt(address: Option<string>)
    requires address.Some? ==> Strip(address.value) == address.value && address.value != ""
    ensures (if address.GetOr("") == "" then None else Some(AddressField(address.GetOr("")))) == address
  {
  }

  lemma StoredBirthdayRebuilt(birthday: Option<BirthdayValue>, b: string)
    requires birthday.Some? ==> birthday.value.OnDate? && birthday.value.date.year >= 1000
    requires b == if birthday.Some? then BirthdayText(birthday.value).value else ""
    ensures OptionalField(b, BirthdayField(b)) == Ok(birthday)
  {
    if birthday.Some? {
      BirthdayRoundTrip(birthday.value.date);
      assert b != "";
    }
  }



}
