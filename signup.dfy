/**
 * The sign-up page's own checks, run in the browser before anything is
 * sent: the same e-mail pattern as the server, the four password rules
 * reported all at once, and the per-field errors of a submit.
 */
module Signup {
  import opened Wrappers
  import opened Text
  import Patterns
  import opened AuthService

  /** `validateEmail`: the server's pattern, character for character. */
  function ValidateEmail(email: string): (b: bool)
    ensures b <==> exists at: nat, dot: nat :: Patterns.EmailMatch(email, at, dot)
  {
    Patterns.EmailMatchesExactly(email);
    Patterns.EmailMatches(email)
  }

  /** The hint shown for a broken rule. */
  function Label(rule: Rule): string {
    match rule
    case Length => "At least 8 characters"
    case Upper => "One uppercase letter"
    case Number => "One number"
    case Special => "One special character (!@#$%^&*)"
  }

  /** Where a rule stands in the checking order. */
  function Position(rule: Rule): (i: nat)
    ensures i < |Rules| && Rules[i] == rule
  {
    match rule
    case Length => 0
    case Upper => 1
    case Number => 2
    case Special => 3
  }

  /** Exactly the rules the password breaks, in checking order. */
  function Broken(password: string): (r: seq<Rule>)
    ensures forall rule :: rule in r <==> rule in Rules && !Holds(rule, password)
    ensures forall i, j :: 0 <= i < j < |r| ==> Position(r[i]) < Position(r[j])
  {
    Unless(Length, password) + Unless(Upper, password) + Unless(Number, password) + Unless(Special, password)
  }

  function Unless(rule: Rule, password: string): seq<Rule> {
    if Holds(rule, password) then [] else [rule]
  }

  function Labels(rules: seq<Rule>): (r: seq<string>)
    ensures |r| == |rules|
    ensures forall i :: 0 <= i < |rules| ==> r[i] == Label(rules[i])
  {
    seq(|rules|, i requires 0 <= i < |rules| => Label(rules[i]))
  }

  /** `validatePassword`: one hint per broken rule, in the order length,
      uppercase, number, special. */
  method ValidatePassword(password: string) returns (errors: seq<string>)
    ensures errors == Labels(Broken(password))
    ensures errors == [] <==> Strong(password)
  {
    ghost var l, u, n, x := Unless(Length, password), Unless(Upper, password), Unless(Number, password),
                             Unless(Special, password);
    errors := [];
    errors := PushUnless(errors, Utf16Length(password) >= 8, "At least 8 characters");
    assert Labels(l) == (if Utf16Length(password) >= 8 then [] else ["At least 8 characters"]);
    assert errors == Labels(l);
    errors := PushUnless(errors, HasSome(password, IsUpper), "One uppercase letter");
    assert Labels(u) == (if HasSome(password, IsUpper) then [] else ["One uppercase letter"]);
    LabelsAppend(l, u);
    assert errors == Labels(l + u);
    errors := PushUnless(errors, HasSome(password, IsDigit), "One number");
    assert Labels(n) == (if HasSome(password, IsDigit) then [] else ["One number"]);
    LabelsAppend(l + u, n);
    assert errors == Labels(l + u + n);
    errors := PushUnless(errors, HasSome(password, IsSpecial), "One special character (!@#$%^&*)");
    assert Labels(x) == (if HasSome(password, IsSpecial) then [] else ["One special character (!@#$%^&*)"]);
    LabelsAppend(l + u + n, x);
    assert errors == Labels(l + u + n + x);
  }

  /** `if (!ok) errors.push(hint)` */
  method PushUnless(errors: seq<string>, ok: bool, hint: string) returns (pushed: seq<string>)
    ensures pushed == errors + (if ok then [] else [hint])
  {
    pushed := errors;
    if !ok {
      pushed := pushed + [hint];
    }
  }

  lemma LabelsAppend(a: seq<Rule>, b: seq<Rule>)
    ensures Labels(a + b) == Labels(a) + Labels(b)
  {
    assert forall i :: 0 <= i < |a + b| ==> Labels(a + b)[i] == (Labels(a) + Labels(b))[i];
  }

  /** The first hint the page shows is for the rule the server reports. */
  lemma FirstHintIsServerError(password: string)
    ensures Broken(password) == [] <==> FirstBroken(password).None?
    ensures Broken(password) != [] ==> Broken(password)[0] == FirstBroken(password).value
  {
  }

  /** The sign-up form's four inputs. */
  datatype Form = Form(name: string, email: string, password: string, confirmPassword: string)

  /** The body of POST /api/auth/signup. */
  datatype SignupBody = SignupBody(name: string, email: string, password: string)

  /** The `newErrors` object of `handleSubmit`, filled field by field. */
  method FormErrors(form: Form) returns (errors: map<string, string>)
    ensures errors.Keys <= {"name", "email", "password", "confirmPassword"}
    ensures "name" in errors <==> form.name == ""
    ensures "name" in errors ==> errors["name"] == "Name is required"
    ensures "email" in errors <==> !ValidateEmail(form.email)
    ensures "email" in errors ==> errors["email"] == (if form.email == "" then "Email is required" else InvalidEmail)
    ensures "password" in errors <==> !Strong(form.password)
    ensures "password" in errors ==>
              errors["password"] == (if form.password == "" then "Password is required"
                                     else Join(Labels(Broken(form.password)), ", "))
    ensures "confirmPassword" in errors <==> form.confirmPassword == "" || form.confirmPassword != form.password
    ensures "confirmPassword" in errors ==>
              errors["confirmPassword"] == (if form.confirmPassword == "" then "Please confirm password"
                                            else "Passwords do not match")
  {
    errors := map[];
    if form.name == "" {
      errors := errors["name" := "Name is required"];
    }
    if form.email == "" {
      errors := errors["email" := "Email is required"];
    } else if !ValidateEmail(form.email) {
      errors := errors["email" := InvalidEmail];
    }
    EmptyIsWeak();
    if form.password == "" {
      errors := errors["password" := "Password is required"];
    } else {
      var hints := ValidatePassword(form.password);
      if |hints| > 0 {
        errors := errors["password" := Join(hints, ", ")];
      }
    }
    if form.confirmPassword == "" {
      errors := errors["confirmPassword" := "Please confirm password"];
    } else if form.password != form.confirmPassword {
      errors := errors["confirmPassword" := "Passwords do not match"];
    }
  }

  /** The empty string fails the e-mail pattern and the length rule, so
      "is required" only ever replaces an error the rules would give too. */
  lemma EmptyIsWeak()
    ensures !Patterns.EmailMatches("")
    ensures !Strong("")
  {
    assert !Holds(Length, "");
  }

  /** `handleSubmit`: with any error nothing is sent; otherwise the body
      carries name, e-mail and password, and not the confirmation. */
  method Submit(form: Form) returns (errors: map<string, string>, request: Option<SignupBody>)
    ensures request.None? <==> errors != map[]
    ensures request.Some? ==> request.value == SignupBody(form.name, form.email, form.password)
    ensures request.Some? ==> Validate(form.email, form.password).None? && form.name != ""
  {
    errors := FormErrors(form);
    if errors != map[] {
      return errors, None;
    }
    request := Some(SignupBody(form.name, form.email, form.password));
  }

  /** A form the page lets through is never refused by the server's
      validation; the converse fails only on the name and confirmation,
      which the server does not check. */
  lemma PageAgreesWithServer(form: Form, errors: map<string, string>)
    requires errors.Keys <= {"name", "email", "password", "confirmPassword"}
    requires "email" in errors <==> !ValidateEmail(form.email)
    requires "password" in errors <==> !Strong(form.password)
    ensures Validate(form.email, form.password).None? <==> "email" !in errors && "password" !in errors
  {
  }
}
