# Personal assistant core: contacts, notes and their validators

This project models the core of a command-line personal assistant that keeps
an address book and a notebook. The model covers:

- the field validators: e-mail pattern, ten-digit phone numbers, phone
  normalisation and display, and birthday parsing with its four date formats
  and its age limits (`src/core/validators.py`);
- the contact model: the `Name`, `Phone`, `Email`, `Address` and `Birthday`
  fields, `Contact`, and its dictionary form (`src/core/models/contacts.py`);
- the note model: `Text`, `Tag`, `Note`, and their dictionary form
  (`src/core/models/notes.py`);
- the two services that hold the in-memory lists: `ContactsService` with
  add, update, patch, delete, search and look-ups, and `NotesService` with
  add, find, update, delete and the tag/text filter
  (`src/services/contacts_service.py`, `src/services/notes_service.py`).

Layout, one module per file:

| file | module | models |
|---|---|---|
| `options.dfy` | `Options` | the `Option` type (Python `None`) |
| `errors.dfy` | `Errors` | the exceptions the core raises, and `Result` |
| `strings.dfy` | `Strings` | `str.strip`, `str.lower`, `in` on strings (ASCII) |
| `seqs.dfy` | `Seqs` | list comprehensions with `if`, and the first-match `for` loop |
| `dates.dfy` | `Dates` | calendar dates, `datetime.strptime` and `strftime` for the formats used |
| `validators.dfy` | `Validators` | `is_email`, `is_phone`, `normalize_phone`, `format_phone`, `parse_birthday` |
| `contacts.dfy` | `ContactModel` | the contact fields, `Contact`, `to_dict`, `from_dict` |
| `notes.dfy` | `NoteModel` | `Text`, `Tag`, `Note`, `to_dict`, `from_dict` |
| `contacts_service.dfy` | `ContactBook` | `ContactsService` as a class over `seq<Contact>` |
| `notes_service.dfy` | `NoteBook` | `NotesService` as a class over `seq<Note>` |

The models and validators are pure, so they are functions and lemmas;
`parse_birthday`'s format loop is the method `ParseBirthday`. The
services mutate a list held in a field, so they are classes whose methods
reassign that field and state the new list exactly. Their loops (`for
contact in self._contacts`, `for note in self.notes`) are `for` loops proved
against `Seqs.FirstIndex` and `Seqs.Filter`.

Conventions of the model:

- UUIDs are `nat` identifiers. A fresh `uuid4()` is a `freshId` parameter.
- An optional string argument that Python tests for truthiness is a
  `string`; `""` stands for both `None` and the empty string, which the
  source treats alike.
- A dictionary key that may be absent is an `Option`.
- An exception the source raises is an `Err` of `Errors.Error`.
- `datetime.now()` is the `today` parameter of `ParseBirthday`.

Behaviour of the code that the model keeps as written:

- `patch` writes the stripped raw strings into the field objects without
  validation. It raises `AttributeError` when it writes through a field
  that is `None`, and keeps the writes made before that point.
- A birthday patched to text makes `str(birthday)`, and so `to_dict`, fail.
- An address of only whitespace is stored as `""`, and `from_dict` reads it
  back as no address.
- `is_email` accepts a top-level domain of two or more letters with no
  upper bound (`src/config/constants.py:28`). The comment beside the
  pattern mentions 2-6 letters, and the model follows the pattern.

## Model

| member | source | states |
|---|---|---|
| Errors.Error.FieldName | src/core/errors.py:20-98 | only the three validation errors carry a field name |
| Dates.DaysInMonth | src/core/validators.py:112 | months have 28 to 31 days, and February has 29 exactly in leap years |
| Dates.StrPTime | src/core/validators.py:112 | `strptime` yields only valid calendar dates |
| Dates.Split3 | src/core/validators.py:112 | a successful split reassembles to the input, and no piece holds the separator |
| Dates.Split3Of | src/core/validators.py:112 | splitting three separator-free pieces joined by the separator gives back the pieces |
| Dates.SmallValue | src/core/validators.py:112 | a `%d` or `%m` token (one digit, two digits, or a space and a digit) reads as its decimal value: 1-31 for a day, 1-12 for a month |
| Dates.TwoDigitValue | src/core/validators.py:112 | the decimal value of a two-digit token |
| Dates.YearTokenValue | src/core/validators.py:112 | the decimal value of a four-digit `%Y` token |
| Dates.StrPTimeOfPieces | src/core/validators.py:112 | well-formed day, month and year tokens of a valid date parse to that date |
| Dates.StrPTimeRejectsMissingDate | src/core/models/contacts.py:165 | well-formed tokens of a date that does not exist are refused |
| Dates.Split3NeedsSeparator | src/core/validators.py:112 | a string without the separator does not split |
| Dates.StrPTimeNeedsSeparator | src/core/validators.py:112 | a format never matches a string without its separator |
| Dates.TokenHasNoSeparator | src/core/validators.py:100-105 | date tokens contain none of `.`, `-`, `/` |
| Dates.FormatDate | src/core/models/contacts.py:186-187 | `strftime("%d.%m.%Y")`: two digits of the day, a `.`, two digits of the month, a `.`, then the year's digits; ten characters for years from 1000 |
| Dates.DigitChar | src/core/models/contacts.py:187 | the digit written for 0-9 reads back as that number |
| Dates.Pad2 | src/core/models/contacts.py:187 | `%d`/`%m` output: two digits reading back as the number |
| Dates.Pad2Token | src/core/models/contacts.py:187 | a padded day or month is a token `strptime` accepts, with the same value |
| Dates.Decimal | src/core/models/contacts.py:187 | `%Y` output: digits reading back as the year |
| Dates.DecimalFourDigits | src/core/models/contacts.py:187 | years 1000-9999 are written with four digits |
| Dates.FormatDateRoundTrip | src/core/models/contacts.py:161-188 | a date written as `DD.MM.YYYY` parses back to the same date (years from 1000) |
| Dates.FirstParse | src/core/validators.py:107-115 | the format loop yields only valid dates |
| Dates.FirstParseFindsFirst | src/core/validators.py:110-115 | a result of the loop comes from some format that no earlier format could parse |
| Dates.FirstSuccessIsFirstParse | src/core/validators.py:110-115 | the first format that parses decides the result |
| Dates.FirstParseIsFirstSuccess | src/core/validators.py:110-115 | the loop's result is exactly the date of the first parsing format (both directions) |
| Dates.BirthdayFormatsInOrder | src/core/validators.py:100-105 | the formats are tried as `%d.%m.%Y`, `%Y-%m-%d`, `%d/%m/%Y`, `%m/%d/%Y` |
| Dates.SlashDatesAreDayFirst | src/core/validators.py:103-104 | a slash date readable both ways is read day first |
| Dates.AmbiguousSlashDate | src/core/validators.py:103-104 | `03/04/2000` is the 3rd of April |
| Dates.MonthFirstReads | src/core/validators.py:104 | `12/25/2000` parses month first |
| Dates.DayFirstFails | src/core/validators.py:103 | `12/25/2000` fails day first (month 25) |
| Dates.MonthFirstFallback | src/core/validators.py:103-104 | `12/25/2000` falls through to the US format: 25 December |
| Dates.LeapDay2000 | src/core/validators.py:101 | `29.02.2000` is accepted (2000 is a leap year) |
| Dates.NoLeapDay1900 | src/core/validators.py:101 | `29.02.1900` is refused (1900 is not a leap year) |
| Validators.EmailShapeIsPattern | src/config/constants.py:28 | the executable split test agrees with the e-mail regex in both directions |
| Validators.EmailShapeGivesSplit | src/config/constants.py:28 | a string passing the split test matches the regex |
| Validators.SplitGivesEmailShape | src/config/constants.py:28 | any regex match passes the split test |
| Validators.EmailPatternLower | src/core/models/contacts.py:120-122 | lower-casing an accepted address keeps it accepted |
| Validators.IsEmail | src/core/validators.py:17-39 | accepted iff non-empty and the stripped value matches; the error carries the unstripped value |
| Validators.RemoveFormatting | src/core/validators.py:63 | every occurrence of whitespace, `-`, `(`, `)`, `+` is removed; every other character is kept as often as it occurs and in its order |
| Validators.NormalizePhone | src/core/validators.py:140-153 | the result holds no formatting characters |
| Validators.NormalizeIgnoresStrip | src/core/validators.py:153 | stripping first makes no difference to normalisation |
| Validators.SpacesVanish | src/core/validators.py:153 | whitespace normalises to nothing |
| Validators.DigitsKept | src/core/validators.py:153 | digits are left alone |
| Validators.NormalizePhoneIdempotent | src/core/validators.py:140-153 | normalising twice is normalising once |
| Validators.IsPhone | src/core/validators.py:42-69 | accepted iff non-empty with exactly ten digits left after removing formatting |
| Validators.AcceptedPhoneNormalizes | src/core/validators.py:42-153 | an accepted phone normalises to ten digits |
| Validators.FormatPhone | src/core/validators.py:156-171 | ten characters become `(XXX) XXX-XXXX` with the digits in place; other lengths unchanged |
| Validators.FormatPhoneRoundTrip | src/core/validators.py:140-171 | normalising a formatted ten-digit number gives the number back |
| Validators.FormattingRemoved | src/core/validators.py:153-170 | removing formatting from `(a) b-c` leaves `a+b+c` |
| Validators.ParseBirthday | src/core/validators.py:72-137 | every error case (empty, unparseable, future, over 150 years) and the date of the first matching format |
| ContactModel.NameField | src/core/models/contacts.py:51-63 | blank names are refused; otherwise the stripped name is kept |
| ContactModel.PhoneField | src/core/models/contacts.py:78-96 | blank is an empty-value error; accepted iff ten digits; the stored value is the normalised number |
| ContactModel.PhoneFieldKeepsDigits | src/core/models/contacts.py:78-96 | a stored ten-digit phone is accepted unchanged when read again |
| ContactModel.EmailField | src/core/models/contacts.py:106-122 | blank is an empty-value error; accepted iff the stripped value matches; stored stripped and lower-cased |
| ContactModel.EmailFieldKeepsStored | src/core/models/contacts.py:106-122 | a stored e-mail is accepted unchanged when read again |
| ContactModel.AddressField | src/core/models/contacts.py:133-140 | the stored address is the input without surrounding whitespace |
| ContactModel.BirthdayField | src/core/models/contacts.py:151-177 | with a `.` the value is read as `DD.MM.YYYY`, else with a `-` as `YYYY-MM-DD`, else it is an error |
| ContactModel.BirthdayText | src/core/models/contacts.py:179-188 | `str` gives `""` for no date, writes a date as `FormatDate` does (`DD.MM.YYYY`), and fails on a birthday that holds text |
| ContactModel.BirthdayRoundTrip | src/core/models/contacts.py:151-188 | a written birthday reads back as the same date (years from 1000) |
| ContactModel.NewContact | src/core/models/contacts.py:209-237 | built iff every supplied field is valid; otherwise the error of the first failing field in the order name, phone, email, birthday; each supplied field holds what its field class stores, a missing one is `None`; the id is the given one or the fresh one |
| ContactModel.ToRecord | src/core/models/contacts.py:248-265 | id, name, phone, e-mail and address are written as stored, and the birthday as its `str` text; it fails only for a birthday holding text |
| ContactModel.FromRecord | src/core/models/contacts.py:267-292 | a missing name is a `KeyError`; otherwise read iff every supplied field is valid, each field holding what its field class stores from the record's value; any result is well formed |
| ContactModel.StoredFieldsRebuild | src/core/models/contacts.py:209-237 | the constructor applied to the values a well-formed contact stores rebuilds that contact |
| ContactModel.ContactRoundTrip | src/core/models/contacts.py:248-292 | for a well-formed contact with a non-empty address and a birthday year from 1000, `from_dict(to_dict(c))` gives `c` back |
| NoteModel.NewText | src/core/models/notes.py:12-17 | blank text is refused; otherwise the stripped text is kept |
| NoteModel.NewTag | src/core/models/notes.py:36-39 | the tag name is stripped and may be empty |
| NoteModel.TextLower | src/core/models/notes.py:29-30 | same length, lower case, character by character |
| NoteModel.TagLower | src/core/models/notes.py:44-45 | same length, lower case, character by character |
| NoteModel.NewNote | src/core/models/notes.py:49-63 | the given id or the fresh one; no tags means an empty list |
| NoteModel.TagNames | src/core/models/notes.py:70 | the tag names in order |
| NoteModel.NewTags | src/core/models/notes.py:77 | one stripped tag per name, in order |
| NoteModel.ToRecord | src/core/models/notes.py:65-71 | id, text and tag names are written out |
| NoteModel.FromRecord | src/core/models/notes.py:73-79 | read iff the text is present and not blank; the note holds the stripped text and one stripped tag per name, in order; the note is well formed |
| NoteModel.NoteRoundTrip | src/core/models/notes.py:65-79 | `from_dict(to_dict(n))` gives `n` back |
| ContactBook.AppendKeepsInvariants | src/services/contacts_service.py:93-108 | appending a contact with a new name and a fresh id keeps ids distinct and names unique ignoring case |
| ContactBook.ReplaceKeepsInvariants | src/services/contacts_service.py:138-156 | replacing a contact after the name check keeps both invariants |
| ContactBook.RemoveKeepsInvariants | src/services/contacts_service.py:241 | removing a contact keeps both invariants |
| ContactBook.SameIdSameIndex | src/services/contacts_service.py:141-189 | under distinct ids, `existing.id != contact_id` identifies the position |
| ContactBook.RemovedAreTheOthers | src/services/contacts_service.py:236-241 | after removal exactly the contacts with other ids remain |
| ContactBook.PatchName | src/services/contacts_service.py:193-194 | the stripped name is written when the key is present, and no other field changes |
| ContactBook.PatchPhone | src/services/contacts_service.py:196-200 | a falsy value clears the phone; a truthy one needs an existing phone, else `AttributeError` |
| ContactBook.PatchEmail | src/services/contacts_service.py:202-206 | as for the phone |
| ContactBook.PatchAddress | src/services/contacts_service.py:208-209 | the stripped value needs an existing address, else `AttributeError` |
| ContactBook.PatchBirthday | src/services/contacts_service.py:211-215 | writes the text or no date; needs an existing birthday, else `AttributeError` |
| ContactBook.PatchContact | src/services/contacts_service.py:192-215 | the id is kept; the first block that writes through an absent field raises `AttributeError` naming that field, with the earlier blocks' writes kept and the later fields as they were; without error every key present is applied |
| ContactBook.ApplyPatch | src/services/contacts_service.py:192-215 | the field writes in source order equal `PatchContact` |
| ContactBook.EmptyPatchChangesNothing | src/services/contacts_service.py:192-215 | an empty update dictionary changes nothing |
| ContactBook.SearchMembers | src/services/contacts_service.py:246-307 | the result keeps list order and holds exactly the contacts that match |
| ContactBook.SearchFindsQuery | src/services/contacts_service.py:275-286 | a contact whose field contains the query is found, whatever the other criteria |
| ContactBook.SearchWithoutCriteria | src/services/contacts_service.py:304-305 | with no query and no criterion nothing is found |
| ContactBook.SearchNoDuplicates | src/services/contacts_service.py:271-307 | no contact appears twice in a result |
| ContactBook.ContactsService.constructor | src/services/contacts_service.py:28-55 | the failed load leaves an empty list |
| ContactBook.ContactsService.GetAll | src/services/contacts_service.py:66-73 | the current list |
| ContactBook.ContactsService.FindById | src/services/contacts_service.py:321-334 | the position of the first contact with that id |
| ContactBook.ContactsService.FindByName | src/services/contacts_service.py:336-350 | the position of the first contact with that name ignoring case |
| ContactBook.ContactsService.GetById | src/services/contacts_service.py:309-319 | found iff some contact has that id, and then the first one |
| ContactBook.ContactsService.Add | src/services/contacts_service.py:75-111 | duplicate name error, or the built contact appended; invariants kept |
| ContactBook.ContactsService.Update | src/services/contacts_service.py:113-159 | not-found and duplicate errors, or the contact replaced in place with the same id |
| ContactBook.ContactsService.Patch | src/services/contacts_service.py:161-220 | not-found and duplicate errors, or the patched contact stored in place, even when a write fails |
| ContactBook.ContactsService.Delete | src/services/contacts_service.py:222-244 | not-found error, or the contact removed, the rest in order |
| ContactBook.ContactsService.Search | src/services/contacts_service.py:246-307 | the loop's result is the filter by the search test, and has no repeats when ids are distinct |
| NoteBook.NoFilterKeepsAll | src/services/notes_service.py:54-62 | with neither tags nor text every note is returned |
| NoteBook.AddedIsFound | src/services/notes_service.py:24-52 | after adding a note with a new id, `find` returns it |
| NoteBook.UpdateKeepsPositions | src/services/notes_service.py:31-38 | an update keeps every note where `find` finds it |
| NoteBook.DeleteThenFind | src/services/notes_service.py:40-52 | `delete` removes only the first note with the id; `find` then reaches the next |
| NoteBook.NotesService.constructor | src/services/notes_service.py:14-19 | the list is the one the store loads |
| NoteBook.NotesService.GetAll | src/services/notes_service.py:21-22 | the current list |
| NoteBook.NotesService.Add | src/services/notes_service.py:24-29 | the note is appended and returned |
| NoteBook.NotesService.IndexOfId | src/services/notes_service.py:48-52 | the position of the first note with that id |
| NoteBook.NotesService.Find | src/services/notes_service.py:48-52 | the first note with that id, or nothing |
| NoteBook.NotesService.Update | src/services/notes_service.py:31-38 | not-found error, or the text and tags given replace the note's own in place |
| NoteBook.NotesService.Delete | src/services/notes_service.py:40-46 | not-found error, or the first note with the id removed |
| NoteBook.NotesService.FindByTags | src/services/notes_service.py:54-62 | exactly the notes sharing a tag ignoring case and containing the text ignoring case, in list order |

## Left out

- Persistence: the store's `load`, `save` and `save_contacts` calls and the JSON file are outside the model. The loaded notes are the `NotesService` constructor's argument.
- NoteBook.NotesService.constructor: without a store argument the source builds a `FileStore`, which has no `load`, so the constructor raises `AttributeError`. The model covers only a store that loads a list. The store interface documented in `src/storage/file_store.py` returns a `(contacts, notes)` pair from `load` and takes both lists in `save`; used with such a store, `self.notes` would hold the pair and the one-argument `save` call would fail. That mismatch is not modelled.
- The command layer, `main.py`, `app.py`, the birthday service and `src/core/utils/dates.py` are not part of this model.
- Unicode: strings are ASCII. `str.strip` and `\s` are modelled as the ten ASCII whitespace characters (space, 0x09-0x0D, 0x1C-0x1F), and `lower` as A-Z only.
- UUIDs are natural numbers: `UUID(...)` parsing, its `str` format and a malformed id are not modelled.
- Dictionary values that are `None` or of the wrong type (a `name` of `None`, a `text` of `None`), and the `isinstance` checks that reject non-strings, are not modelled. Missing keys are.
- ContactBook.ContactsService.Patch: contacts are values, so writes through a `Contact` object that the caller still holds (aliasing) are not modelled. The patched contact replaces the stored one at its position.
- NoteBook.NotesService.Update: the same; also `update` accepts any objects as `text` and `tags`, while the model takes `Text` and `Tag` values.
- Dates.FormatDate: `%Y` is written without zero padding, so round trips are stated for years from 1000.
- `Birthday.get_date`, `Contact.__str__`/`__repr__`, `Note.__str__`, `Text.__str__`/`__len__`/`__getitem__` and `Tag.__str__` are display helpers and are not modelled.
- Validators.ParseBirthday: `datetime.now()` is the `today` date parameter, and it needs a year above 150 so that the lower bound date exists. Times of day are not modelled: a parsed birthday is at midnight, so it is in the future only when its day is after today.
