/** The validation rules on the registration request: `Username` is
    `[Required]`; `Password` is `[Required]` and
    `[StringLength(8, MinimumLength = 4)]` with a fixed error message. */
module Registration {
  import opened Wrappers

  /** The request body; `None` is a null property. */
  datatype UserForRegisterDto = UserForRegisterDto(username: Option<string>, password: Option<string>)

  datatype Field = Username | Password

  /** One failed validation attribute. */
  datatype ValidationError =
    | RequiredError(field: Field)
    | StringLengthError(field: Field, message: string)

  const PasswordMinLength := 4
  const PasswordMaxLength := 8
  const PasswordLengthMessage := "you must specify a password between 4 and 8 characters"

  /** `char.IsWhiteSpace`: the Unicode separators and the control
      characters tab, line feed, vertical tab, form feed, carriage return
      and next line. */
  predicate IsWhiteSpace(c: char) {
    var n := c as int;
    || 0x09 <= n <= 0x0D || n == 0x20 || n == 0x85 || n == 0xA0 || n == 0x1680
    || 0x2000 <= n <= 0x200A || n == 0x2028 || n == 0x2029 || n == 0x202F
    || n == 0x205F || n == 0x3000
  }

  /** Nothing but white space (or nothing at all). */
  predicate IsBlank(s: string) {
    forall i | 0 <= i < |s| :: IsWhiteSpace(s[i])
  }

  /** `TrimStart()`: drop leading white space. */
  function TrimStart(s: string): (r: string)
    ensures r == [] <==> IsBlank(s)
    ensures r != [] ==> !IsWhiteSpace(r[0])
    ensures |r| <= |s| && r == s[|s| - |r|..]
  {
    if s != [] && IsWhiteSpace(s[0]) then TrimStart(s[1..]) else s
  }

  /** `TrimEnd()`: drop trailing white space. */
  function TrimEnd(s: string): (r: string)
    ensures r == [] <==> IsBlank(s)
    ensures r != [] ==> !IsWhiteSpace(r[|r| - 1])
    ensures |r| <= |s| && r == s[..|r|]
  {
    if s != [] && IsWhiteSpace(s[|s| - 1]) then TrimEnd(s[..|s| - 1]) else s
  }

  /** `Trim()`: drop white space at both ends. */
  function Trim(s: string): (r: string)
    ensures r == [] <==> IsBlank(s)
    ensures r != [] ==> !IsWhiteSpace(r[0]) && !IsWhiteSpace(r[|r| - 1])
  {
    TrimEnd(TrimStart(s))
  }

  /** `string.Length`: UTF-16 code units, two for a character outside the
      Basic Multilingual Plane. */
  function Utf16Length(s: string): (n: nat)
    ensures |s| <= n <= 2 * |s|
    ensures (forall i | 0 <= i < |s| :: s[i] as int < 0x10000) ==> n == |s|
  {
    if s == [] then 0
    else (if s[0] as int < 0x10000 then 1 else 2) + Utf16Length(s[1..])
  }

  /** `[Required]` on a string: not null, and not empty or white space. */
  function RequiredErrors(field: Field, value: Option<string>): (errors: seq<ValidationError>)
    ensures errors == [] <==> value.Some? && !IsBlank(value.value)
    ensures errors != [] ==> errors == [RequiredError(field)]
  {
    if value.Some? && Trim(value.value) != [] then [] else [RequiredError(field)]
  }

  /** `[StringLength(8, MinimumLength = 4, ErrorMessage = ...)]`: a null
      value passes; otherwise the length must lie in 4..8, both inclusive. */
  function PasswordLengthErrors(value: Option<string>): (errors: seq<ValidationError>)
    ensures errors == [] <==> value.None? || PasswordMinLength <= Utf16Length(value.value) <= PasswordMaxLength
    ensures errors != [] ==> errors == [StringLengthError(Password, PasswordLengthMessage)]
  {
    if value.None? then []
    else
      var length := Utf16Length(value.value);
      if PasswordMinLength <= length && length <= PasswordMaxLength then []
      else [StringLengthError(Password, PasswordLengthMessage)]
  }

  /** The errors model validation reports, attribute by attribute in
      declaration order. */
  function Validate(dto: UserForRegisterDto): (errors: seq<ValidationError>)
    ensures RequiredError(Username) in errors <==> dto.username.None? || IsBlank(dto.username.value)
    ensures RequiredError(Password) in errors <==> dto.password.None? || IsBlank(dto.password.value)
    ensures StringLengthError(Password, PasswordLengthMessage) in errors <==>
              dto.password.Some? && !(PasswordMinLength <= Utf16Length(dto.password.value) <= PasswordMaxLength)
    ensures errors == [] <==>
              && RequiredError(Username) !in errors
              && RequiredError(Password) !in errors
              && StringLengthError(Password, PasswordLengthMessage) !in errors
  {
    RequiredErrors(Username, dto.username)
    + RequiredErrors(Password, dto.password)
    + PasswordLengthErrors(dto.password)
  }

  /** A registration request passes validation. */
  predicate ValidRegistration(username: Option<string>, password: Option<string>): (ok: bool)
    ensures ok ==> username.Some? && password.Some?
    ensures password.Some? && !(PasswordMinLength <= Utf16Length(password.value) <= PasswordMaxLength) ==> !ok
  {
    Validate(UserForRegisterDto(username, password)) == []
  }

  /** The rules in one statement: a non-blank username of any length and a
      non-blank password of 4 to 8 code units. */
  lemma ValidRegistrationIff(username: Option<string>, password: Option<string>)
    ensures ValidRegistration(username, password) <==>
              && username.Some? && !IsBlank(username.value)
              && password.Some? && !IsBlank(password.value)
              && PasswordMinLength <= Utf16Length(password.value) <= PasswordMaxLength
  {
  }

  /** Both properties are required: a null one is always rejected. */
  lemma NullIsRejected(username: Option<string>, password: Option<string>)
    ensures !ValidRegistration(None, password)
    ensures !ValidRegistration(username, None)
  {
  }

  /** A password outside 4..8 is rejected with the fixed message. */
  lemma PasswordLengthOutOfRange(username: Option<string>, password: string)
    requires Utf16Length(password) < 4 || 8 < Utf16Length(password)
    ensures !ValidRegistration(username, Some(password))
    ensures StringLengthError(Password, "you must specify a password between 4 and 8 characters")
              in Validate(UserForRegisterDto(username, Some(password)))
  {
  }

  /** For a password of ordinary (single code unit) characters the bounds
      are inclusive: exactly the lengths 4 to 8 pass, so 4 and 8 are
      accepted and 3 and 9 are not. */
  lemma PasswordBoundsInclusive(username: string, password: string)
    requires !IsBlank(username) && !IsBlank(password)
    requires forall i | 0 <= i < |password| :: password[i] as int < 0x10000
    ensures ValidRegistration(Some(username), Some(password)) <==> 4 <= |password| <= 8
  {
  }

  /** The username has no length limit: only whether it is blank matters. */
  lemma UsernameLengthIsFree(u1: string, u2: string, password: Option<string>)
    requires !IsBlank(u1) && !IsBlank(u2)
    ensures ValidRegistration(Some(u1), password) == ValidRegistration(Some(u2), password)
  {
  }
}
