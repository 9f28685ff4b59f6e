/**
 * The field validators: the email pattern check, the phone check with its
 * normalisation and display form, and the multi-format birthday parser.
 * `datetime.now()` is the `today` parameter of `ParseBirthday`.
 */
module Validators {
  import opened Options
  import opened Errors
  import opened Strings
  import opened Seqs
  import opened Dates

  // ---------------------------------------------------------------- email

  /** `[a-zA-Z0-9._%+-]`, the characters of the part before `@`. */
  predicate LocalChar(c: char) {
    IsLetter(c) || IsDigit(c) || c == '.' || c == '_' || c == '%' || c == '+' || c == '-'
  }

  /** `[a-zA-Z0-9.-]`, the characters of the domain. */
  predicate DomainChar(c: char) {
    IsLetter(c) || IsDigit(c) || c == '.' || c == '-'
  }

  predicate AllLocal(s: string) {
    forall i :: 0 <= i < |s| ==> LocalChar(s[i])
  }

  predicate AllDomain(s: string) {
    forall i :: 0 <= i < |s| ==> DomainChar(s[i])
  }

  predicate AllLetters(s: string) {
    forall i :: 0 <= i < |s| ==> IsLetter(s[i])
  }

  /** `s` reads as `^[a-zA-Z0-9._%+-]+@[a-zA-Z0-9.-]+\.[a-zA-Z]{2,}$` with
      the `@` at position `a` and the `.` before the top-level domain at
      position `d`. */
  predicate EmailAt(s: string, a: int, d: int) {
    && 0 < a && a + 1 < d && d + 3 <= |s|
    && s[a] == '@' && s[d] == '.'
    && AllLocal(s[..a]) && AllDomain(s[a + 1..d]) && AllLetters(s[d + 1..])
  }

  /** The email pattern of the configuration, as a language. */
  ghost predicate MatchesEmailPattern(s: string) {
    exists a, d :: EmailAt(s, a, d)
  }

  /** The domain part: the last `.` splits it into a non-empty domain and a
      top-level domain of at least two letters. */
  predicate DomainShape(t: string) {
    match LastIndexOf(t, '.')
    case None => false
    case Some(d) => 0 < d && d + 3 <= |t| && AllDomain(t[..d]) && AllLetters(t[d + 1..])
  }

  /** The pattern as the matcher decides it: the local part ends at the
      first `@`, since no local character is an `@`. */
  predicate EmailShape(s: string) {
    match IndexOf(s, '@')
    case None => false
    case Some(a) => 0 < a && AllLocal(s[..a]) && DomainShape(s[a + 1..])
  }

  /** The matcher accepts exactly the language of the pattern. */
  lemma EmailShapeIsPattern(s: string)
    ensures EmailShape(s) <==> MatchesEmailPattern(s)
  {
    if EmailShape(s) {
      EmailShapeGivesSplit(s);
    }
    if MatchesEmailPattern(s) {
      var a, d :| EmailAt(s, a, d);
      SplitGivesEmailShape(s, a, d);
    }
  }

  lemma EmailShapeGivesSplit(s: string)
    requires EmailShape(s)
    ensures MatchesEmailPattern(s)
  {
    var a := IndexOf(s, '@').value;
    var t := s[a + 1..];
    var d := LastIndexOf(t, '.').value;
    assert s[a + 1..a + 1 + d] == t[..d];
    assert s[a + 1 + d + 1..] == t[d + 1..];
    assert EmailAt(s, a, a + 1 + d);
  }

  lemma SplitGivesEmailShape(s: string, a: int, d: int)
    requires EmailAt(s, a, d)
    ensures EmailShape(s)
  {
    LocalHasNoAt(s[..a]);
    IndexOfAt(s, '@', a);
    var t := s[a + 1..];
    var e := d - a - 1;
    assert t[..e] == s[a + 1..d] && t[e + 1..] == s[d + 1..];
    LettersHaveNoDot(t[e + 1..]);
    LastIndexOfAt(t, '.', e);
    assert DomainShape(t);
  }

  lemma LocalHasNoAt(local: string)
    requires AllLocal(local)
    ensures '@' !in local
  {
    assert forall i :: 0 <= i < |local| ==> LocalChar(local[i]);
  }

  lemma LettersHaveNoDot(tld: string)
    requires AllLetters(tld)
    ensures '.' !in tld
  {
    assert forall i :: 0 <= i < |tld| ==> IsLetter(tld[i]);
  }

  /** Lower-casing keeps an address inside the pattern: letters stay letters
      and `@` and `.` are untouched. */
  lemma EmailPatternLower(s: string)
    requires MatchesEmailPattern(s)
    ensures MatchesEmailPattern(Lower(s))
  {
    var a, d :| EmailAt(s, a, d);
    var l := Lower(s);
    assert l[..a] == Lower(s[..a]) && l[a + 1..d] == Lower(s[a + 1..d]) && l[d + 1..] == Lower(s[d + 1..]);
    assert EmailAt(l, a, d);
  }

  /** `is_email`: `True`, or `InvalidEmailError` naming the input. */
  function IsEmail(value: string): (r: Result<bool>)
    ensures value == "" ==> r == Err(InvalidEmail(""))
    ensures value != "" && r.Err? ==> r == Err(InvalidEmail(value))
    ensures r.Ok? <==> value != "" && MatchesEmailPattern(Strip(value))
    ensures r.Ok? ==> r.value
  {
    EmailShapeIsPattern(Strip(value));
    if value == "" then Err(InvalidEmail(""))
    else if !EmailShape(Strip(value)) then Err(InvalidEmail(value))
    else Ok(true)
  }

  // ---------------------------------------------------------------- phone

  /** `[\s\-\(\)\+]`, what phone normalisation removes. */
  predicate PhoneFormatting(c: char) {
    IsSpace(c) || c == '-' || c == '(' || c == ')' || c == '+'
  }

  predicate KeptInPhone(c: char) {
    !PhoneFormatting(c)
  }

  /** `re.sub(r"[\s\-\(\)\+]", "", s)`. */
  function RemoveFormatting(s: string): (r: string)
    ensures forall c :: c in r <==> c in s && !PhoneFormatting(c)
    ensures forall c :: multiset(r)[c] == if PhoneFormatting(c) then 0 else multiset(s)[c]
    ensures IsSubsequence(r, s)
  {
    FilterMembers(s, KeptInPhone);
    FilterMultiset(s, KeptInPhone);
    FilterIsSubsequence(s, KeptInPhone);
    Filter(s, KeptInPhone)
  }

  /** `normalize_phone`. */
  function NormalizePhone(value: string): (r: string)
    ensures forall c :: c in r ==> !PhoneFormatting(c)
  {
    RemoveFormatting(Strip(value))
  }

  predicate TenDigits(s: string) {
    |s| == 10 && AllDigits(s)
  }

  /** Whitespace is removed anyway, so the `strip()` before the removal
      changes nothing. */
  lemma NormalizeIgnoresStrip(value: string)
    ensures NormalizePhone(value) == RemoveFormatting(value)
  {
    var s := Strip(value);
    if s == [] {
      SpacesVanish(value);
    } else {
      StripParts(value);
      var head, tail := value[..StartIndex(value)], value[EndIndex(value)..];
      assert value == head + s + tail;
      FilterConcat(head + s, tail, KeptInPhone);
      FilterConcat(head, s, KeptInPhone);
      SpacesVanish(head);
      SpacesVanish(tail);
      assert Filter(value, KeptInPhone) == Filter(s, KeptInPhone);
    }
  }

  lemma {:induction false} SpacesVanish(s: string)
    requires AllSpace(s)
    ensures Filter(s, KeptInPhone) == []
  {
    if s != [] {
      SpacesVanish(s[1..]);
    }
  }

  lemma DigitsKept(s: string)
    requires AllDigits(s)
    ensures Filter(s, KeptInPhone) == s
  {
    FilterAll(s, KeptInPhone);
  }

  /** Normalising a normalised number changes nothing. */
  lemma NormalizePhoneIdempotent(value: string)
    ensures NormalizePhone(NormalizePhone(value)) == NormalizePhone(value)
  {
    var n := NormalizePhone(value);
    NormalizeIgnoresStrip(n);
    FilterAll(n, KeptInPhone);
  }

  /** `is_phone`: `True` exactly when ten digits and nothing else remain
      once whitespace, `-`, `(`, `)` and `+` are removed; otherwise
      `InvalidPhoneError` naming the input. */
  function IsPhone(value: string): (r: Result<bool>)
    ensures r.Ok? <==> value != "" && TenDigits(RemoveFormatting(value))
    ensures r.Ok? ==> r.value
    ensures value == "" ==> r == Err(InvalidPhone(""))
    ensures value != "" && r.Err? ==> r == Err(InvalidPhone(value))
  {
    NormalizeIgnoresStrip(value);
    if value == "" then Err(InvalidPhone(""))
    else if !TenDigits(RemoveFormatting(Strip(value))) then Err(InvalidPhone(value))
    else Ok(true)
  }

  /** What an accepted number is stored as: its ten digits. */
  lemma AcceptedPhoneNormalizes(value: string)
    requires IsPhone(value).Ok?
    ensures TenDigits(NormalizePhone(value))
  {
    NormalizeIgnoresStrip(value);
  }

  /** `format_phone`. */
  function FormatPhone(value: string): (r: string)
    ensures |value| == 10 ==> |r| == 14 && r[0] == '(' && r[4] == ')' && r[5] == ' ' && r[9] == '-'
    ensures |value| == 10 ==> r[1..4] == value[..3] && r[6..9] == value[3..6] && r[10..] == value[6..]
    ensures |value| != 10 ==> r == value
  {
    if |value| == 10 then "(" + value[..3] + ") " + value[3..6] + "-" + value[6..] else value
  }

  /** Normalising the display form of ten digits gives the digits back. */
  lemma FormatPhoneRoundTrip(p: string)
    requires TenDigits(p)
    ensures NormalizePhone(FormatPhone(p)) == p
  {
    var a, b, c := p[..3], p[3..6], p[6..];
    var f := FormatPhone(p);
    assert f == "(" + a + ") " + b + "-" + c;
    NormalizeIgnoresStrip(f);
    FormattingRemoved(a, b, c);
    assert a + b + c == p;
  }

  lemma FormattingRemoved(a: string, b: string, c: string)
    requires AllDigits(a) && AllDigits(b) && AllDigits(c)
    ensures RemoveFormatting("(" + a + ") " + b + "-" + c) == a + b + c
  {
    var s1 := "(" + a;
    assert Filter(s1, KeptInPhone) == a by {
      DigitsKept(a);
      FilterConcat("(", a, KeptInPhone);
    }
    var s2 := s1 + ") ";
    assert Filter(s2, KeptInPhone) == a by {
      FilterConcat(s1, ") ", KeptInPhone);
      SpacesVanish(" ");
    }
    var s3 := s2 + b;
    assert Filter(s3, KeptInPhone) == a + b by {
      DigitsKept(b);
      FilterConcat(s2, b, KeptInPhone);
    }
    var s4 := s3 + "-";
    assert Filter(s4, KeptInPhone) == a + b by {
      FilterConcat(s3, "-", KeptInPhone);
    }
    var s5 := s4 + c;
    assert Filter(s5, KeptInPhone) == a + b + c by {
      DigitsKept(c);
      FilterConcat(s4, c, KeptInPhone);
    }
  }

  // ------------------------------------------------------------- birthday

  /** `parse_birthday(value)` on the day `today`: the first of the four
      formats that reads the stripped input, then the future and the
      150-year checks. */
  method ParseBirthday(value: string, today: Date) returns (r: Result<Date>)
    requires ValidDate(today) && today.year > 150
    ensures value == "" ==> r == Err(InvalidBirthday("", EmptyInput))
    ensures value != "" && FirstParse(Strip(value), BirthdayFormats).None? ==>
      r == Err(InvalidBirthday(Strip(value), Unparseable))
    ensures value != "" && FirstParse(Strip(value), BirthdayFormats).Some? ==>
      var d := FirstParse(Strip(value), BirthdayFormats).value;
      r == if Before(today, d) then Err(InvalidBirthday(Strip(value), InFuture))
           else if Before(d, Date(today.year - 150, 1, 1)) then Err(InvalidBirthday(Strip(value), TooOld))
           else Ok(d)
    ensures r.Ok? ==> ValidDate(r.value) && !Before(today, r.value) && r.value.year >= today.year - 150
  {
    if value == "" {
      return Err(InvalidBirthday("", EmptyInput));
    }
    var s := Strip(value);
    var formats := BirthdayFormats;
    var parsed: Option<Date> := None;
    for i := 0 to |formats|
      invariant parsed.None? ==> FirstParse(s, formats) == FirstParse(s, formats[i..])
      invariant parsed.Some? ==> parsed == FirstParse(s, formats)
    {
      var attempt := StrPTime(s, formats[i]);
      if attempt.Some? {
        parsed := attempt;
        break;
      }
      assert formats[i..][1..] == formats[i + 1..];
    }
    if parsed.None? {
      return Err(InvalidBirthday(s, Unparseable));
    }
    var d := parsed.value;
    if Before(today, d) {
      return Err(InvalidBirthday(s, InFuture));
    }
    var minDate := Date(today.year - 150, 1, 1);
    if Before(d, minDate) {
      return Err(InvalidBirthday(s, TooOld));
    }
    return Ok(d);
  }
}
