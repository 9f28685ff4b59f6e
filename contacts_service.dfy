/**
 * `ContactsService`: the ordered, in-memory list of contacts and the
 * operations on it.  Saving to the store is left out; the service starts
 * from the empty list, which is what it is left with when the store cannot
 * load.
 *
 * The service keeps two invariants: no two contacts share an id, and no two
 * contacts have names that are equal ignoring case.
 */
module ContactBook {
  import opened Options
  import opened Errors
  import opened Strings
  import opened Seqs
  import opened ContactModel

  /** The dictionary `add` and `update` receive; `""` is a missing key. */
  datatype ContactData = ContactData(name: string, phone: string, email: string, address: string, birthday: string)

  /** The dictionary `patch` receives; `None` is a key that is not there. */
  datatype ContactPatch = ContactPatch(
    name: Option<string>,
    phone: Option<string>,
    email: Option<string>,
    address: Option<string>,
    birthday: Option<string>)

  function IdIs(id: Id): Contact -> bool {
    (c: Contact) => c.id == id
  }

  /** `contact.name.value.lower() == name.lower()`. */
  function NameIs(name: string): Contact -> bool {
    (c: Contact) => Lower(c.name) == Lower(name)
  }

  ghost predicate DistinctIds(cs: seq<Contact>) {
    forall i, j :: 0 <= i < j < |cs| ==> cs[i].id != cs[j].id
  }

  ghost predicate UniqueNames(cs: seq<Contact>) {
    forall i, j :: 0 <= i < j < |cs| ==> Lower(cs[i].name) != Lower(cs[j].name)
  }

  // ------------------------------------------------------------ invariants

  /** Appending a contact whose name no contact has (ignoring case) and
      whose id is new keeps both invariants. */
  lemma AppendKeepsInvariants(cs: seq<Contact>, c: Contact)
    requires DistinctIds(cs) && UniqueNames(cs)
    requires FirstIndex(cs, NameIs(c.name)).None?
    requires forall j :: 0 <= j < |cs| ==> cs[j].id != c.id
    ensures DistinctIds(cs + [c]) && UniqueNames(cs + [c])
  {
    var r := cs + [c];
    forall i, j | 0 <= i < j < |r| ensures Lower(r[i].name) != Lower(r[j].name) {
      if j == |cs| {
        assert !NameIs(c.name)(cs[i]);
      }
    }
  }

  /** Replacing the contact at `k` by one with the same id, whose name is
      not another contact's ignoring case, keeps both invariants. */
  lemma ReplaceKeepsInvariants(cs: seq<Contact>, k: nat, c: Contact)
    requires DistinctIds(cs) && UniqueNames(cs)
    requires k < |cs| && c.id == cs[k].id
    requires FirstIndex(cs, NameIs(c.name)).None? || FirstIndex(cs, NameIs(c.name)) == Some(k)
    ensures DistinctIds(cs[k := c]) && UniqueNames(cs[k := c])
  {
    var r := cs[k := c];
    forall j | 0 <= j < |cs| && j != k ensures Lower(cs[j].name) != Lower(c.name) {
      if FirstIndex(cs, NameIs(c.name)) == Some(k) {
        assert Lower(cs[k].name) == Lower(c.name);
      } else {
        assert !NameIs(c.name)(cs[j]);
      }
    }
    forall i, j | 0 <= i < j < |r| ensures Lower(r[i].name) != Lower(r[j].name) {
      if i == k {
        assert Lower(cs[j].name) != Lower(c.name);
      } else if j == k {
        assert Lower(cs[i].name) != Lower(c.name);
      }
    }
  }

  /** Removing one contact keeps both invariants. */
  lemma RemoveKeepsInvariants(cs: seq<Contact>, k: nat)
    requires DistinctIds(cs) && UniqueNames(cs)
    requires k < |cs|
    ensures DistinctIds(cs[..k] + cs[k + 1..]) && UniqueNames(cs[..k] + cs[k + 1..])
  {
    var r := cs[..k] + cs[k + 1..];
    assert forall i :: 0 <= i < |r| ==> r[i] == if i < k then cs[i] else cs[i + 1];
  }

  /** Under distinct ids, a name match that carries the given id is the
      contact with that id. */
  lemma SameIdSameIndex(cs: seq<Contact>, id: Id, k: nat, j: nat)
    requires DistinctIds(cs)
    requires k < |cs| && j < |cs| && cs[k].id == id && cs[j].id == id
    ensures j == k
  {
  }

  // --------------------------------------------------------------- patch

  /** `if "name" in updates`: the trimmed name is written and nothing else
      changes. */
  function PatchName(c: Contact, v: Option<string>): (r: Contact)
    ensures r.(name := c.name) == c
    ensures v.Some? ==> r.name == Strip(v.value)
    ensures v.None? ==> r == c
  {
    if v.Some? then c.(name := Strip(v.value)) else c
  }

  /** The value each later `patch` block leaves in its field when it does
      not raise: unchanged without the key, `None` for a falsy phone or
      e-mail, no date for a falsy birthday, and the trimmed text otherwise. */
  function PatchedPhone(c: Contact, v: Option<string>): Option<string> {
    if v.None? then c.phone else if v.value == "" then None else Some(Strip(v.value))
  }

  function PatchedEmail(c: Contact, v: Option<string>): Option<string> {
    if v.None? then c.email else if v.value == "" then None else Some(Strip(v.value))
  }

  function PatchedAddress(c: Contact, v: Option<string>): Option<string> {
    if v.None? then c.address else Some(Strip(v.value))
  }

  function PatchedBirthday(c: Contact, v: Option<string>): Option<BirthdayValue> {
    if v.None? then c.birthday else if v.value == "" then Some(NoDate) else Some(RawText(Strip(v.value)))
  }

  /** The blocks that write through a field that is `None`: a truthy phone
      or e-mail, and any address or birthday. */
  predicate PhoneRaises(c: Contact, v: Option<string>) {
    v.Some? && v.value != "" && c.phone.None?
  }

  predicate EmailRaises(c: Contact, v: Option<string>) {
    v.Some? && v.value != "" && c.email.None?
  }

  predicate AddressRaises(c: Contact, v: Option<string>) {
    v.Some? && c.address.None?
  }

  predicate BirthdayRaises(c: Contact, v: Option<string>) {
    v.Some? && c.birthday.None?
  }

  /** `if "phone" in updates`: a truthy value is written trimmed into the
      field, which must be there; a falsy one removes the field. */
  function PatchPhone(c: Contact, v: Option<string>): (r: Result<Contact>)
    ensures r.Err? <==> PhoneRaises(c, v)
    ensures r.Err? ==> r.error == NoSuchAttribute("phone")
    ensures r.Ok? ==> r.value == c.(phone := PatchedPhone(c, v))
  {
    if PhoneRaises(c, v) then Err(NoSuchAttribute("phone")) else Ok(c.(phone := PatchedPhone(c, v)))
  }

  /** `if "email" in updates`: as for the phone. */
  function PatchEmail(c: Contact, v: Option<string>): (r: Result<Contact>)
    ensures r.Err? <==> EmailRaises(c, v)
    ensures r.Err? ==> r.error == NoSuchAttribute("email")
    ensures r.Ok? ==> r.value == c.(email := PatchedEmail(c, v))
  {
    if EmailRaises(c, v) then Err(NoSuchAttribute("email")) else Ok(c.(email := PatchedEmail(c, v)))
  }

  /** `if "address" in updates`: the trimmed value is written into the
      field, which must be there. */
  function PatchAddress(c: Contact, v: Option<string>): (r: Result<Contact>)
    ensures r.Err? <==> AddressRaises(c, v)
    ensures r.Err? ==> r.error == NoSuchAttribute("address")
    ensures r.Ok? ==> r.value == c.(address := PatchedAddress(c, v))
  {
    if AddressRaises(c, v) then Err(NoSuchAttribute("address")) else Ok(c.(address := PatchedAddress(c, v)))
  }

  /** `if "birthday" in updates`: the trimmed text, or no date for a falsy
      value, is written into the field, which must be there. */
  function PatchBirthday(c: Contact, v: Option<string>): (r: Result<Contact>)
    ensures r.Err? <==> BirthdayRaises(c, v)
    ensures r.Err? ==> r.error == NoSuchAttribute("birthday")
    ensures r.Ok? ==> r.value == c.(birthday := PatchedBirthday(c, v))
  {
    if BirthdayRaises(c, v) then Err(NoSuchAttribute("birthday")) else Ok(c.(birthday := PatchedBirthday(c, v)))
  }

  /** The `patch` blocks applied in source order to the contact with that
      id.  Each `.value` assignment reaches through the field, so writing
      into an absent field raises `AttributeError`; the writes already made
      stay.  The result is the contact as left and the error, if any. */
  function PatchContact(c: Contact, p: ContactPatch): (r: (Contact, Option<Error>))
    ensures r.0.id == c.id
    ensures r.0.name == PatchName(c, p.name).name
    ensures r.1.None? <==>
      !PhoneRaises(c, p.phone) && !EmailRaises(c, p.email) && !AddressRaises(c, p.address) && !BirthdayRaises(c, p.birthday)
    ensures r.1.Some? ==> r.1.value.NoSuchAttribute?
    ensures PhoneRaises(c, p.phone) ==>
      r == (PatchName(c, p.name), Some(NoSuchAttribute("phone")))
    ensures !PhoneRaises(c, p.phone) && EmailRaises(c, p.email) ==>
      r == (PatchName(c, p.name).(phone := PatchedPhone(c, p.phone)), Some(NoSuchAttribute("email")))
    ensures !PhoneRaises(c, p.phone) && !EmailRaises(c, p.email) && AddressRaises(c, p.address) ==>
      r == (PatchName(c, p.name).(phone := PatchedPhone(c, p.phone), email := PatchedEmail(c, p.email)),
            Some(NoSuchAttribute("address")))
    ensures !PhoneRaises(c, p.phone) && !EmailRaises(c, p.email) && !AddressRaises(c, p.address) && BirthdayRaises(c, p.birthday) ==>
      r == (PatchName(c, p.name).(phone := PatchedPhone(c, p.phone), email := PatchedEmail(c, p.email),
                                  address := PatchedAddress(c, p.address)),
            Some(NoSuchAttribute("birthday")))
    ensures r.1.None? ==>
      r.0 == PatchName(c, p.name).(phone := PatchedPhone(c, p.phone), email := PatchedEmail(c, p.email),
                                   address := PatchedAddress(c, p.address), birthday := PatchedBirthday(c, p.birthday))
  {
    var c1 := PatchName(c, p.name);
    match PatchPhone(c1, p.phone)
    case Err(e) => (c1, Some(e))
    case Ok(c2) =>
      match PatchEmail(c2, p.email)
      case Err(e) => (c2, Some(e))
      case Ok(c3) =>
        match PatchAddress(c3, p.address)
        case Err(e) => (c3, Some(e))
        case Ok(c4) =>
          match PatchBirthday(c4, p.birthday)
          case Err(e) => (c4, Some(e))
          case Ok(c5) => (c5, None)
  }

  /** The field writes of `patch`, one `if key in updates` block after the
      other, on the contact object itself. */
  method ApplyPatch(contact: Contact, p: ContactPatch) returns (c: Contact, err: Option<Error>)
    ensures (c, err) == PatchContact(contact, p)
  {
    c := contact;
    err := None;
    if p.name.Some? {
      c := c.(name := Strip(p.name.value));
    }
    if p.phone.Some? {
      if p.phone.value != "" {
        if c.phone.None? {
          return c, Some(NoSuchAttribute("phone"));
        }
        c := c.(phone := Some(Strip(p.phone.value)));
      } else {
        c := c.(phone := None);
      }
    }
    if p.email.Some? {
      if p.email.value != "" {
        if c.email.None? {
          return c, Some(NoSuchAttribute("email"));
        }
        c := c.(email := Some(Strip(p.email.value)));
      } else {
        c := c.(email := None);
      }
    }
    if p.address.Some? {
      if c.address.None? {
        return c, Some(NoSuchAttribute("address"));
      }
      c := c.(address := Some(Strip(p.address.value)));
    }
    if p.birthday.Some? {
      if c.birthday.None? {
        return c, Some(NoSuchAttribute("birthday"));
      }
      if p.birthday.value != "" {
        c := c.(birthday := Some(RawText(Strip(p.birthday.value))));
      } else {
        c := c.(birthday := Some(NoDate));
      }
    }
  }

  /** A patch without keys changes nothing. */
  lemma EmptyPatchChangesNothing(c: Contact)
    ensures PatchContact(c, ContactPatch(None, None, None, None, None)) == (c, None)
  {
  }

  // -------------------------------------------------------------- search

  /** The general query: the lower-cased query occurs in the lower-cased
      name, phone, email or address. */
  predicate QueryHit(query: string, c: Contact) {
    var q := Lower(query);
    && query != ""
    && (|| Contains(Lower(c.name), q)
        || (c.phone.Some? && Contains(Lower(c.phone.value), q))
        || (c.email.Some? && Contains(Lower(c.email.value), q))
        || (c.address.Some? && Contains(Lower(c.address.value), q)))
  }

  /** The specific criteria: at least one is given and none of the given
      ones fails.  The phone criterion is not lower-cased, and the phone and
      email criteria pass for a contact without that field. */
  predicate FieldsHit(name: string, phone: string, email: string, c: Contact) {
    && (name != "" || phone != "" || email != "")
    && (name == "" || Contains(Lower(c.name), Lower(name)))
    && (phone == "" || c.phone.None? || Contains(Lower(c.phone.value), phone))
    && (email == "" || c.email.None? || Contains(Lower(c.email.value), Lower(email)))
  }

  function SearchMatch(query: string, name: string, phone: string, email: string): Contact -> bool {
    (c: Contact) => QueryHit(query, c) || FieldsHit(name, phone, email, c)
  }

  /** The search result holds exactly the contacts that meet the query or
      the criteria, in collection order. */
  lemma SearchMembers(cs: seq<Contact>, query: string, name: string, phone: string, email: string)
    ensures var r := Filter(cs, SearchMatch(query, name, phone, email));
      && IsSubsequence(r, cs)
      && forall c :: c in r <==> c in cs && (QueryHit(query, c) || FieldsHit(name, phone, email, c))
  {
    FilterIsSubsequence(cs, SearchMatch(query, name, phone, email));
    FilterMembers(cs, SearchMatch(query, name, phone, email));
  }

  /** A contact whose name, phone, email or address contains the query,
      ignoring case, is found. */
  lemma SearchFindsQuery(cs: seq<Contact>, query: string, name: string, phone: string, email: string, c: Contact)
    requires c in cs && query != ""
    requires || Contains(Lower(c.name), Lower(query))
             || (c.phone.Some? && Contains(Lower(c.phone.value), Lower(query)))
             || (c.email.Some? && Contains(Lower(c.email.value), Lower(query)))
             || (c.address.Some? && Contains(Lower(c.address.value), Lower(query)))
    ensures c in Filter(cs, SearchMatch(query, name, phone, email))
  {
    FilterMembers(cs, SearchMatch(query, name, phone, email));
  }

  /** Without a query or a criterion nothing is found. */
  lemma SearchWithoutCriteria(cs: seq<Contact>)
    ensures Filter(cs, SearchMatch("", "", "", "")) == []
  {
    FilterMembers(cs, SearchMatch("", "", "", ""));
  }

  /** A collection with distinct ids yields a result without repeats. */
  lemma SearchNoDuplicates(cs: seq<Contact>, query: string, name: string, phone: string, email: string)
    requires DistinctIds(cs)
    ensures NoDuplicates(Filter(cs, SearchMatch(query, name, phone, email)))
  {
    assert NoDuplicates(cs) by {
      forall i, j | 0 <= i < j < |cs| ensures cs[i] != cs[j] {
        assert cs[i].id != cs[j].id;
      }
    }
    FilterNoDuplicates(cs, SearchMatch(query, name, phone, email));
  }

  // ------------------------------------------------------------- service

  class ContactsService {
    var contacts: seq<Contact>

    ghost predicate Valid()
      reads this
    {
      DistinctIds(contacts) && UniqueNames(contacts)
    }

    /** The default store has no `load`; the failure is caught and the
        service starts empty. */
    constructor()
      ensures contacts == [] && Valid()
    {
      contacts := [];
    }

    /** `get_all`: a copy of the list. */
    method GetAll() returns (r: seq<Contact>)
      ensures r == contacts
    {
      r := contacts;
    }

    /** `_find_by_id`: the position of the first contact with that id. */
    method FindById(id: Id) returns (r: Option<nat>)
      ensures r == FirstIndex(contacts, IdIs(id))
    {
      for i := 0 to |contacts|
        invariant forall j :: 0 <= j < i ==> contacts[j].id != id
      {
        if contacts[i].id == id {
          FirstIndexAt(contacts, IdIs(id), i);
          return Some(i);
        }
      }
      FirstIndexNone(contacts, IdIs(id));
      return None;
    }

    /** `_find_by_name`: the position of the first contact whose name equals
        `name` ignoring case. */
    method FindByName(name: string) returns (r: Option<nat>)
      ensures r == FirstIndex(contacts, NameIs(name))
    {
      var target := Lower(name);
      for i := 0 to |contacts|
        invariant forall j :: 0 <= j < i ==> Lower(contacts[j].name) != target
      {
        if Lower(contacts[i].name) == target {
          FirstIndexAt(contacts, NameIs(name), i);
          return Some(i);
        }
      }
      FirstIndexNone(contacts, NameIs(name));
      return None;
    }

    /** `get_by_id`. */
    method GetById(id: Id) returns (r: Option<Contact>)
      ensures r.Some? <==> exists j :: 0 <= j < |contacts| && contacts[j].id == id
      ensures r.Some? ==> r.value in contacts && r.value.id == id
      ensures r.Some? ==> r.value == contacts[FirstIndex(contacts, IdIs(id)).value]
    {
      var k := FindById(id);
      if k.None? {
        return None;
      }
      return Some(contacts[k.value]);
    }

    /** `add`: refuses a name some contact has ignoring case, builds the
        contact (`freshId` stands for `uuid4()`) and appends it. */
    method Add(data: ContactData, freshId: Id) returns (r: Result<Contact>)
      requires Valid()
      requires forall j :: 0 <= j < |contacts| ==> contacts[j].id != freshId
      modifies this
      ensures Valid()
      ensures FirstIndex(old(contacts), NameIs(Strip(data.name))).Some? ==>
        r == Err(DuplicateContact(Strip(data.name))) && contacts == old(contacts)
      ensures FirstIndex(old(contacts), NameIs(Strip(data.name))).None? ==>
        match NewContact(data.name, data.phone, data.email, data.address, data.birthday, None, freshId)
        case Err(e) => r == Err(e) && contacts == old(contacts)
        case Ok(c) => r == Ok(c) && contacts == old(contacts) + [c]
    {
      var name := Strip(data.name);
      var existing := FindByName(name);
      if existing.Some? {
        return Err(DuplicateContact(name));
      }
      var created := NewContact(data.name, data.phone, data.email, data.address, data.birthday, None, freshId);
      if created.Err? {
        return Err(created.error);
      }
      AppendKeepsInvariants(contacts, created.value);
      contacts := contacts + [created.value];
      return Ok(created.value);
    }

    /** `update`: replaces every field of the contact with that id, which
        keeps its id and its place. */
    method Update(id: Id, data: ContactData) returns (r: Result<Contact>)
      requires Valid()
      modifies this
      ensures Valid()
      ensures FirstIndex(old(contacts), IdIs(id)).None? ==>
        r == Err(ContactNotFound(id)) && contacts == old(contacts)
      ensures FirstIndex(old(contacts), IdIs(id)).Some? ==>
        var k := FirstIndex(old(contacts), IdIs(id)).value;
        var existing := FirstIndex(old(contacts), NameIs(Strip(data.name)));
        if existing.Some? && old(contacts)[existing.value].id != id then
          r == Err(DuplicateContact(Strip(data.name))) && contacts == old(contacts)
        else
          match NewContact(data.name, data.phone, data.email, data.address, data.birthday, Some(id), id)
          case Err(e) => r == Err(e) && contacts == old(contacts)
          case Ok(c) => r == Ok(c) && c.id == id && contacts == old(contacts)[k := c]
    {
      var k := FindById(id);
      if k.None? {
        return Err(ContactNotFound(id));
      }
      var newName := Strip(data.name);
      var existing := FindByName(newName);
      if existing.Some? && contacts[existing.value].id != id {
        return Err(DuplicateContact(newName));
      }
      var created := NewContact(data.name, data.phone, data.email, data.address, data.birthday, Some(id), id);
      if created.Err? {
        return Err(created.error);
      }
      if existing.Some? {
        SameIdSameIndex(contacts, id, k.value, existing.value);
      }
      ReplaceKeepsInvariants(contacts, k.value, created.value);
      contacts := contacts[k.value := created.value];
      return Ok(created.value);
    }

    /** `patch`: after the same checks as `update`, writes the supplied keys
        into the contact with that id, in place and in source order. */
    method Patch(id: Id, p: ContactPatch) returns (r: Result<Contact>)
      requires Valid()
      modifies this
      ensures Valid()
      ensures FirstIndex(old(contacts), IdIs(id)).None? ==>
        r == Err(ContactNotFound(id)) && contacts == old(contacts)
      ensures FirstIndex(old(contacts), IdIs(id)).Some? ==>
        var k := FirstIndex(old(contacts), IdIs(id)).value;
        var existing := if p.name.Some? then FirstIndex(old(contacts), NameIs(Strip(p.name.value))) else None;
        if existing.Some? && old(contacts)[existing.value].id != id then
          r == Err(DuplicateContact(Strip(p.name.value))) && contacts == old(contacts)
        else
          var (c, e) := PatchContact(old(contacts)[k], p);
          contacts == old(contacts)[k := c] && r == (if e.Some? then Err(e.value) else Ok(c))
    {
      var k := FindById(id);
      if k.None? {
        return Err(ContactNotFound(id));
      }
      if p.name.Some? {
        var newName := Strip(p.name.value);
        var existing := FindByName(newName);
        if existing.Some? && contacts[existing.value].id != id {
          return Err(DuplicateContact(newName));
        }
        if existing.Some? {
          SameIdSameIndex(contacts, id, k.value, existing.value);
        }
      }
      var c, err := ApplyPatch(contacts[k.value], p);
      ReplaceKeepsInvariants(contacts, k.value, c);
      contacts := contacts[k.value := c];
      if err.Some? {
        return Err(err.value);
      }
      return Ok(c);
    }

    /** `delete`: removes the contact with that id and keeps the order of
        the others. */
    method Delete(id: Id) returns (r: Result<bool>)
      requires Valid()
      modifies this
      ensures Valid()
      ensures FirstIndex(old(contacts), IdIs(id)).None? ==>
        r == Err(ContactNotFound(id)) && contacts == old(contacts)
      ensures FirstIndex(old(contacts), IdIs(id)).Some? ==>
        var k := FirstIndex(old(contacts), IdIs(id)).value;
        r == Ok(true) && contacts == old(contacts)[..k] + old(contacts)[k + 1..]
      ensures forall c :: c in contacts <==> c in old(contacts) && c.id != id
    {
      var k := FindById(id);
      if k.None? {
        return Err(ContactNotFound(id));
      }
      RemoveKeepsInvariants(contacts, k.value);
      RemovedAreTheOthers(contacts, k.value);
      contacts := contacts[..k.value] + contacts[k.value + 1..];
      return Ok(true);
    }

    /** `search`: one pass over the list; a contact is taken when the query
        hits, and otherwise when the specific criteria all pass. */
    method Search(query: string, name: string, phone: string, email: string) returns (results: seq<Contact>)
      ensures results == Filter(contacts, SearchMatch(query, name, phone, email))
      ensures Valid() ==> NoDuplicates(results)
    {
      results := [];
      for i := 0 to |contacts|
        invariant results == Filter(contacts[..i], SearchMatch(query, name, phone, email))
      {
        var c := contacts[i];
        assert contacts[..i + 1] == contacts[..i] + [c];
        FilterSnoc(contacts[..i], c, SearchMatch(query, name, phone, email));
        if query != "" {
          var q := Lower(query);
          if || Contains(Lower(c.name), q)
             || (c.phone.Some? && Contains(Lower(c.phone.value), q))
             || (c.email.Some? && Contains(Lower(c.email.value), q))
             || (c.address.Some? && Contains(Lower(c.address.value), q))
          {
            results := results + [c];
            continue;
          }
        }
        var matches := true;
        if name != "" && !Contains(Lower(c.name), Lower(name)) {
          matches := false;
        }
        if phone != "" && c.phone.Some? && !Contains(Lower(c.phone.value), phone) {
          matches := false;
        }
        if email != "" && c.email.Some? && !Contains(Lower(c.email.value), Lower(email)) {
          matches := false;
        }
        if matches && (name != "" || phone != "" || email != "") {
          results := results + [c];
        }
      }
      assert contacts[..|contacts|] == contacts;
      if Valid() {
        SearchNoDuplicates(contacts, query, name, phone, email);
      }
    }
  }

  /** Removing the contact with id `cs[k].id` leaves exactly the others,
      when ids are distinct. */
  lemma RemovedAreTheOthers(cs: seq<Contact>, k: nat)
    requires DistinctIds(cs) && k < |cs|
    ensures forall c :: c in cs[..k] + cs[k + 1..] <==> c in cs && c.id != cs[k].id
  {
    var r := cs[..k] + cs[k + 1..];
    forall c | c in cs && c.id != cs[k].id ensures c in r {
      var i :| 0 <= i < |cs| && cs[i] == c;
      if i < k {
        assert r[i] == c;
      } else {
        assert r[i - 1] == c;
      }
    }
    forall c | c in r ensures c in cs && c.id != cs[k].id {
      var i :| 0 <= i < |r| && r[i] == c;
      if i < k {
        assert c == cs[i];
      } else {
        assert c == cs[i + 1];
      }
    }
  }
}
