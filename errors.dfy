/**
 * The error kinds the core raises (src/core/errors.py) together with the
 * plain Python exceptions (`ValueError`, `KeyError`, `AttributeError`) that
 * the models and services let escape, and the result type that carries them.
 */
module Errors {
  import opened Options

  /** Opaque identifier of a contact or a note (a UUID in the source). */
  type Id = nat

  /** Why `parse_birthday` rejected its input. */
  datatype BirthdayProblem =
    | EmptyInput     // "Birthday must be a non-empty string"
    | Unparseable    // none of the four formats matched
    | InFuture       // "Birthday cannot be in the future"
    | TooOld         // "Birthday cannot be more than 150 years ago"

  datatype Error =
    | InvalidEmail(email: string)
    | InvalidPhone(phone: string)
    | InvalidBirthday(birthday: string, reason: BirthdayProblem)
    | ContactNotFound(identifier: Id)
    | DuplicateContact(name: string)
    /** `ValueError("<field> cannot be empty")` from a field constructor. */
    | EmptyValue(field: string)
    /** `ValueError("Invalid birthday format ...")` from the Birthday field. */
    | BadBirthdayFormat
    /** `ValueError("Note with id ... not found")` from the notes service. */
    | NoteNotFound(noteId: Id)
    /** `KeyError` when a serialized record lacks a required key. */
    | MissingKey(key: string)
    /** `AttributeError` when code reaches through a field that is `None`
        (or, for a birthday, holds text instead of a date). */
    | NoSuchAttribute(field: string)
  {
    /** The `field_name` of the three `ValidationError` subclasses. */
    function FieldName(): (r: Option<string>)
      ensures r.Some? <==> (InvalidEmail? || InvalidPhone? || InvalidBirthday?)
    {
      match this
      case InvalidEmail(_) => Some("email")
      case InvalidPhone(_) => Some("phone")
      case InvalidBirthday(_, _) => Some("birthday")
      case _ => None
    }
  }

  /** A value, or the error the source would have raised instead. */
  datatype Result<+T> = Ok(value: T) | Err(error: Error) {

    predicate IsFailure() {
      Err?
    }

    function PropagateFailure<U>(): Result<U>
      requires Err?
    {
      Err(error)
    }

    function Extract(): T
      requires Ok?
    {
      value
    }
  }
}
