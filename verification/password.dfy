/** Password strength rules: the validator that registration applies, the 0..4 strength score
    and its label. */
module Password {
  import opened Wrappers
  import opened Text
  import opened Schema

  /** The validator's messages, one per rule. */
  datatype PasswordError =
    | Required | TooShortStrict | NoUpper | NoLower | NoDigit | NoSpecial | TooCommon | TooShortBasic

  /** The text each error is reported with. */
  function Message(e: PasswordError): string {
    match e
    case Required => "Password is required"
    case TooShortStrict => "Password must be at least 8 characters long"
    case NoUpper => "Password must contain at least one uppercase letter"
    case NoLower => "Password must contain at least one lowercase letter"
    case NoDigit => "Password must contain at least one number"
    case NoSpecial => "Password must contain at least one special character (!@#$%^&*()_+-=[]{}|;:,.<>?)"
    case TooCommon => "Password is too common. Please choose a stronger password"
    case TooShortBasic => "Password must be at least 6 characters long"
  }

  /** The substrings that make a password "too common". */
  const COMMON: seq<string> := ["password", "12345678", "qwerty", "abc123", "password123"]

  /** The characters of the special-character class. */
  const SPECIALS := "!@#$%^&*()_+-=[]{};':\"\\|,.<>/?"

  const LABELS: seq<string> := ["Very Weak", "Weak", "Fair", "Good", "Strong"]

  predicate IsUpper(c: char) { 'A' <= c <= 'Z' }
  predicate IsLower(c: char) { 'a' <= c <= 'z' }
  predicate IsSpecial(c: char) { c in SPECIALS }

  predicate HasUpper(s: string) { exists i | 0 <= i < |s| :: IsUpper(s[i]) }
  predicate HasLower(s: string) { exists i | 0 <= i < |s| :: IsLower(s[i]) }
  predicate HasDigit(s: string) { exists i | 0 <= i < |s| :: IsDigit(s[i]) }
  predicate HasSpecial(s: string) { exists i | 0 <= i < |s| :: IsSpecial(s[i]) }

  /** Some common password occurs in `s`, ignoring case. */
  predicate IsCommon(s: string) {
    exists k | 0 <= k < |COMMON| :: Contains(ToLower(s), COMMON[k])
  }

  /** What strict mode demands, stated rule by rule. */
  predicate StrongEnough(s: string) {
    |s| >= 8 && HasUpper(s) && HasLower(s) && HasDigit(s) && HasSpecial(s) && !IsCommon(s)
  }

  /** The result object of the validator. */
  datatype Validation = Validation(valid: bool, errors: seq<PasswordError>)

  /** The error list of one rule: empty when it holds, its message otherwise. */
  function Check(ok: bool, e: PasswordError): (r: seq<PasswordError>)
    ensures ok <==> r == []
    ensures |r| <= 1 && (r != [] ==> r[0] == e)
  {
    if ok then [] else [e]
  }

  /** The errors of strict mode, in the order the rules are checked. */
  function StrictErrors(s: string): seq<PasswordError> {
    Check(|s| >= 8, TooShortStrict) + Check(HasUpper(s), NoUpper) + Check(HasLower(s), NoLower)
    + Check(HasDigit(s), NoDigit) + Check(HasSpecial(s), NoSpecial) + Check(!IsCommon(s), TooCommon)
  }

  /** The validator's result for a possibly missing password. */
  function Validate(password: Option<string>, strict: bool): (r: Validation)
    ensures r.valid <==> r.errors == []
  {
    if !Present(password) then Validation(false, [Required])
    else
      var errors := if strict then StrictErrors(password.value) else Check(|password.value| >= 6, TooShortBasic);
      Validation(errors == [], errors)
  }

  /** validatePassword: collects one message per failed rule. */
  method ValidatePassword(password: Option<string>, strict: bool) returns (r: Validation)
    ensures r == Validate(password, strict)
  {
    if !Present(password) {
      return Validation(false, [Required]);
    }
    var p := password.value;
    var errors: seq<PasswordError> := [];
    if strict {
      errors := StrictChecks(p);
    } else {
      if |p| < 6 {
        errors := errors + [TooShortBasic];
      }
    }
    r := Validation(|errors| == 0, errors);
  }

  /** The six strict rules, checked in order, each adding its message when it fails. */
  method StrictChecks(p: string) returns (errors: seq<PasswordError>)
    ensures errors == StrictErrors(p)
  {
    errors := PushUnless([], |p| >= 8, TooShortStrict);
    assert errors == Check(|p| >= 8, TooShortStrict);
    errors := PushUnless(errors, HasUpper(p), NoUpper);
    errors := PushUnless(errors, HasLower(p), NoLower);
    errors := PushUnless(errors, HasDigit(p), NoDigit);
    errors := PushUnless(errors, HasSpecial(p), NoSpecial);
    errors := PushUnless(errors, !IsCommon(p), TooCommon);
  }

  /** One rule of the validator: its message is pushed exactly when it fails. */
  method PushUnless(errors: seq<PasswordError>, ok: bool, e: PasswordError) returns (r: seq<PasswordError>)
    ensures r == errors + Check(ok, e)
  {
    r := errors;
    if !ok {
      r := r + [e];
    }
  }

  /** A missing or empty password fails with the single "required" message, in either mode. */
  lemma MissingPasswordIsRequired(password: Option<string>, strict: bool)
    requires !Present(password)
    ensures Validate(password, strict) == Validation(false, [Required])
  {
  }

  /** In basic mode the only rule is a length of at least 6. */
  lemma BasicModeIsLength(p: string)
    requires p != ""
    ensures var r := Validate(Some(p), false);
      (r.valid <==> |p| >= 6) && (!r.valid ==> r.errors == [TooShortBasic])
  {
  }

  /** In strict mode the password is accepted exactly when every rule holds, with at most six errors. */
  lemma StrictModeRules(p: string)
    requires p != ""
    ensures var r := Validate(Some(p), true);
      (r.valid <==> StrongEnough(p)) && |r.errors| <= 6
  {
    var c1, c2, c3 := Check(|p| >= 8, TooShortStrict), Check(HasUpper(p), NoUpper), Check(HasLower(p), NoLower);
    var c4, c5, c6 := Check(HasDigit(p), NoDigit), Check(HasSpecial(p), NoSpecial), Check(!IsCommon(p), TooCommon);
    assert Validate(Some(p), true).errors == c1 + c2 + c3 + c4 + c5 + c6;
  }

  /** In strict mode each failed rule, and only a failed rule, contributes its own message. */
  lemma StrictModeMessages(p: string)
    requires p != ""
    ensures var r := Validate(Some(p), true);
      && (TooShortStrict in r.errors <==> |p| < 8)
      && (NoUpper in r.errors <==> !HasUpper(p))
      && (NoLower in r.errors <==> !HasLower(p))
      && (NoDigit in r.errors <==> !HasDigit(p))
      && (NoSpecial in r.errors <==> !HasSpecial(p))
      && (TooCommon in r.errors <==> IsCommon(p))
  {
    StrictErrorsMembers(p, TooShortStrict);
    StrictErrorsMembers(p, NoUpper);
    StrictErrorsMembers(p, NoLower);
    StrictErrorsMembers(p, NoDigit);
    StrictErrorsMembers(p, NoSpecial);
    StrictErrorsMembers(p, TooCommon);
  }

  /** The strict errors are exactly the messages of the failed rules. */
  lemma StrictErrorsMembers(p: string, e: PasswordError)
    ensures e in StrictErrors(p) <==>
      || (e == TooShortStrict && |p| < 8) || (e == NoUpper && !HasUpper(p)) || (e == NoLower && !HasLower(p))
      || (e == NoDigit && !HasDigit(p)) || (e == NoSpecial && !HasSpecial(p)) || (e == TooCommon && IsCommon(p))
  {
    CheckedErrors(|p| >= 8, HasUpper(p), HasLower(p), HasDigit(p), HasSpecial(p), !IsCommon(p));
  }

  /** The six rule checks, whatever their outcomes, list the failed rules' messages. */
  lemma CheckedErrors(b1: bool, b2: bool, b3: bool, b4: bool, b5: bool, b6: bool)
    ensures var errors := Check(b1, TooShortStrict) + Check(b2, NoUpper) + Check(b3, NoLower)
                        + Check(b4, NoDigit) + Check(b5, NoSpecial) + Check(b6, TooCommon);
      && (forall e :: e in errors <==>
            || (e == TooShortStrict && !b1) || (e == NoUpper && !b2) || (e == NoLower && !b3)
            || (e == NoDigit && !b4) || (e == NoSpecial && !b5) || (e == TooCommon && !b6))
      && (b1 && b2 && b3 && b4 && b5 && !b6 ==> errors == [TooCommon])
  {
  }

  /** The number of criteria getPasswordStrength awards a point for. */
  function Points(s: string): (n: nat)
    ensures n <= 6
  {
    (if |s| >= 8 then 1 else 0) + (if |s| >= 12 then 1 else 0)
    + (if HasLower(s) then 1 else 0) + (if HasUpper(s) then 1 else 0)
    + (if HasDigit(s) then 1 else 0) + (if HasSpecial(s) then 1 else 0)
  }

  /** The strength score: 0 when missing, otherwise the points capped at 4. */
  function Strength(password: Option<string>): (r: nat)
    ensures r <= 4
    ensures !Present(password) ==> r == 0
    ensures Present(password) && Points(password.value) < 4 ==> r == Points(password.value)
    ensures Present(password) && Points(password.value) >= 4 ==> r == 4
  {
    if !Present(password) then 0
    else if Points(password.value) < 4 then Points(password.value) else 4
  }

  /** getPasswordStrength: increments the score per criterion met, then caps it. */
  method PasswordStrength(password: Option<string>) returns (score: nat)
    ensures score == Strength(password)
  {
    if !Present(password) {
      return 0;
    }
    var p := password.value;
    score := 0;
    if |p| >= 8 {
      score := score + 1;
    }
    if |p| >= 12 {
      score := score + 1;
    }
    if HasLower(p) {
      score := score + 1;
    }
    if HasUpper(p) {
      score := score + 1;
    }
    if HasDigit(p) {
      score := score + 1;
    }
    if HasSpecial(p) {
      score := score + 1;
    }
    if score > 4 {
      score := 4;
    }
  }

  /** Every password strict mode accepts scores the top strength. */
  lemma StrictAcceptedIsStrong(p: string)
    requires Validate(Some(p), true).valid
    ensures Strength(Some(p)) == 4
  {
    StrictModeRules(p);
  }

  /** getPasswordStrengthLabel: the score indexes the label list, so the fallback is never used. */
  function StrengthLabel(password: Option<string>): (r: string)
    ensures r in LABELS
    ensures r == "Strong" <==> Strength(password) == 4
    ensures !Present(password) ==> r == "Very Weak"
  {
    var k := Strength(password);
    if k < |LABELS| then LABELS[k] else "Very Weak"
  }

  /** A strong-looking password that contains a common word is refused for that reason alone. */
  lemma CommonWordRefused()
    ensures Validate(Some("Qwerty1!"), true).errors == [TooCommon]
  {
    var p := "Qwerty1!";
    ExampleIsCommon();
    ExampleClasses();
    CheckedErrors(|p| >= 8, HasUpper(p), HasLower(p), HasDigit(p), HasSpecial(p), !IsCommon(p));
  }

  /** `Qwerty1!` has eight characters and every character class. */
  lemma ExampleClasses()
    ensures var p := "Qwerty1!"; |p| >= 8 && HasUpper(p) && HasLower(p) && HasDigit(p) && HasSpecial(p)
  {
    var p := "Qwerty1!";
    assert IsUpper(p[0]) && IsLower(p[1]) && IsDigit(p[6]) && IsSpecial(p[7]);
  }

  /** `Qwerty1!` starts with `qwerty` once lowercased. */
  lemma ExampleIsCommon()
    ensures IsCommon("Qwerty1!")
  {
    var q := ToLower("Qwerty1!");
    assert q[0] == 'q' && q[1] == 'w' && q[2] == 'e' && q[3] == 'r' && q[4] == 't' && q[5] == 'y';
    assert q[..6] == COMMON[2];
    assert StartsWith(q, COMMON[2]);
  }
}
