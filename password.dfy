/** The password value object: the strength policy, the checked factory and the masked rendering. */
module Passwords {
  import opened Wrappers
  import opened JsText

  const MinLength: nat := 8

  const LengthMessage: string := "Password must be at least " + NatToDecimal(MinLength) + " characters long"
  const UppercaseMessage: string := "Password must contain at least one uppercase letter"
  const NumberMessage: string := "Password must contain at least one number"

  /** The regular expression `/[A-Z]/` finds a match. */
  predicate HasUppercase(p: string) {
    exists i :: 0 <= i < |p| && 'A' <= p[i] <= 'Z'
  }

  /** The regular expression `/[0-9]/` finds a match. */
  predicate HasDigit(p: string) {
    exists i :: 0 <= i < |p| && '0' <= p[i] <= '9'
  }

  /** The position of a rule's message in the order the rules are checked: length, uppercase, digit. */
  function RuleIndex(message: string): nat {
    if message == LengthMessage then 0 else if message == UppercaseMessage then 1 else 2
  }

  /** The messages of the rules `p` breaks. */
  function Violations(p: string): (r: seq<string>)
    ensures |r| <= 3
    ensures LengthMessage in r <==> Utf16Length(p) < MinLength
    ensures UppercaseMessage in r <==> !HasUppercase(p)
    ensures NumberMessage in r <==> !HasDigit(p)
    ensures forall i, j :: 0 <= i < j < |r| ==> RuleIndex(r[i]) < RuleIndex(r[j])
  {
    assert |LengthMessage| == 43;
    (if Utf16Length(p) < MinLength then [LengthMessage] else [])
    + (if !HasUppercase(p) then [UppercaseMessage] else [])
    + (if !HasDigit(p) then [NumberMessage] else [])
  }

  /** `Password.validate`: collects the message of every broken rule, in rule order. */
  method Validate(password: string) returns (errors: seq<string>)
    ensures errors == Violations(password)
  {
    errors := [];
    if password == [] || Utf16Length(password) < MinLength {
      errors := errors + [LengthMessage];
    }
    ghost var afterLength := errors;
    if !HasUppercase(password) {
      errors := errors + [UppercaseMessage];
    }
    ghost var afterUppercase := errors;
    if !HasDigit(password) {
      errors := errors + [NumberMessage];
    }
    assert afterLength == (if Utf16Length(password) < MinLength then [LengthMessage] else []);
    assert afterUppercase == afterLength + (if !HasUppercase(password) then [UppercaseMessage] else []);
    assert errors == afterUppercase + (if !HasDigit(password) then [NumberMessage] else []);
  }

  predicate IsStrong(p: string) {
    |Violations(p)| == 0
  }

  /** A password is strong exactly when it is long enough and has an uppercase letter and a digit.
      The length is JavaScript's: UTF-16 code units, so an astral character counts twice. */
  lemma StrongIffAllRulesHold(p: string)
    ensures IsStrong(p) <==> Utf16Length(p) >= MinLength && HasUppercase(p) && HasDigit(p)
  {
    var r := Violations(p);
    if |r| > 0 {
      assert r[0] in r;
      assert r[0] == LengthMessage || r[0] == UppercaseMessage || r[0] == NumberMessage;
    }
  }

  /** The empty password breaks all three rules. */
  lemma EmptyPasswordBreaksEveryRule()
    ensures Violations("") == [LengthMessage, UppercaseMessage, NumberMessage]
  {
  }

  /** Seven characters, the last one astral, are eight code units. */
  lemma AstralCharacterCountsTwice()
    ensures |"Abcde1\U{1F600}"| == 7 && Utf16Length("Abcde1\U{1F600}") == 8
  {
    assert "\U{1F600}"[1..] == [];
  }

  /** So a seven-character password passes the length rule when one character is astral. */
  lemma AstralPasswordIsStrong()
    ensures IsStrong("Abcde1\U{1F600}")
  {
    var p := "Abcde1\U{1F600}";
    AstralCharacterCountsTwice();
    assert p[0] == 'A' && p[5] == '1';
    assert HasUppercase(p) && HasDigit(p);
  }

  /** A password value. The source keeps the constructor private, so every value comes from `Create`. */
  datatype Password = Password(value: string) {

    function GetValue(): string {
      value
    }

    /** The rendering never shows the characters: eight asterisks whatever the value. */
    function ToString(): (r: string)
      ensures |r| == 8 && forall i :: 0 <= i < |r| ==> r[i] == '*'
    {
      "********"
    }
  }

  const FailurePrefix: string := "Password validation failed: "

  /** `Password.create`: fails with the joined messages when the password is weak. */
  function Create(password: string): Result<Password, string> {
    var errors := Violations(password);
    if |errors| > 0 then Failure(FailurePrefix + Join(errors, ", "))
    else Success(Password(password))
  }

  /** `create` succeeds exactly for strong passwords and then wraps the text unchanged;
      otherwise its error names every broken rule. */
  lemma CreateSucceedsIffStrong(p: string)
    ensures Create(p).Success? <==> IsStrong(p)
    ensures Create(p).Success? ==> Create(p).value.GetValue() == p
    ensures Create(p).Failure? ==> Create(p).error == FailurePrefix + Join(Violations(p), ", ")
  {
  }

  /** The rendering is the same for any two passwords. */
  lemma ToStringHidesValue(a: Password, b: Password)
    ensures a.ToString() == b.ToString()
  {
  }
}
