/** The password policy engine and the password generator: character-class
    detection, policy evaluation with an optional injected breach check, and
    policy-driven random generation. */
module PasswordUtils {
  import opened Wrappers
  import opened PyStr

  // ---------------------------------------------------------------- constants

  const DefaultMinLength := 12
  const GenMinLength := 16
  const GenMaxLength := 24

  /** The special characters the policy accepts and the generator draws from. */
  const SpecialChars := "!@#$%^&*()-_=+[]{};:,.<>/?"

  const AsciiLowercase := "abcdefghijklmnopqrstuvwxyz"
  const AsciiUppercase := "ABCDEFGHIJKLMNOPQRSTUVWXYZ"
  const AsciiLetters := AsciiLowercase + AsciiUppercase
  const Digits := "0123456789"

  /** The ASCII letter and digit strings hold exactly their character ranges. */
  lemma SeedRanges(c: char)
    ensures c in AsciiUppercase ==> 'A' <= c <= 'Z'
    ensures c in AsciiLowercase ==> 'a' <= c <= 'z'
    ensures c in Digits ==> '0' <= c <= '9'
  {
  }

  // ---------------------------------------------------------------- character classes

  datatype CharClass = Upper | Lower | Digit | Special

  /** What each class's pattern matches: [A-Z], [a-z], \d (ASCII digits here)
      and the bracketed, escaped special set. */
  predicate InClass(c: char, k: CharClass) {
    match k
    case Upper => 'A' <= c <= 'Z'
    case Lower => 'a' <= c <= 'z'
    case Digit => '0' <= c <= '9'
    case Special => c in SpecialChars
  }

  /** A regex search for class `k`: does some character of `s` belong to it? */
  function HasClass(s: string, k: CharClass): (r: bool)
    ensures r <==> exists i :: 0 <= i < |s| && InClass(s[i], k)
  {
    if s == [] then false
    else
      var r := InClass(s[0], k) || HasClass(s[1..], k);
      assert forall i :: 1 <= i < |s| ==> s[i] == s[1..][i - 1];
      r
  }

  datatype CharClassReport = CharClassReport(hasUpper: bool, hasLower: bool, hasDigit: bool, hasSpecial: bool)

  /** The four class-membership flags of a password. */
  function CheckCharClasses(password: string): CharClassReport {
    CharClassReport(HasClass(password, Upper), HasClass(password, Lower),
                    HasClass(password, Digit), HasClass(password, Special))
  }

  /** Each flag holds exactly when some character of the password is in A-Z,
      a-z, 0-9 or the special set, respectively. */
  lemma CheckCharClassesIff(password: string)
    ensures var r := CheckCharClasses(password);
            && (r.hasUpper <==> exists i :: 0 <= i < |password| && 'A' <= password[i] <= 'Z')
            && (r.hasLower <==> exists i :: 0 <= i < |password| && 'a' <= password[i] <= 'z')
            && (r.hasDigit <==> exists i :: 0 <= i < |password| && '0' <= password[i] <= '9')
            && (r.hasSpecial <==> exists i :: 0 <= i < |password| && password[i] in SpecialChars)
  {
  }

  function Has(report: CharClassReport, k: CharClass): bool {
    match k
    case Upper => report.hasUpper
    case Lower => report.hasLower
    case Digit => report.hasDigit
    case Special => report.hasSpecial
  }

  // ---------------------------------------------------------------- evaluation

  /** A SHA-1 digest rendered as 40 upper-case hexadecimal characters. */
  predicate IsUpperHexDigit(c: char) {
    '0' <= c <= '9' || 'A' <= c <= 'F'
  }

  type Sha1Hex = s: string | |s| == 40 && forall i :: 0 <= i < |s| ==> IsUpperHexDigit(s[i])
    witness "0000000000000000000000000000000000000000"

  /** What the injected breach callback did: returned a (truthy or falsy)
      answer, or raised an exception whose text is `description`. */
  datatype CheckerReply = Answered(breached: bool) | Raised(description: string)

  type BreachChecker = string -> CheckerReply

  /** One entry of the reasons list. `Text` renders each to the exact message
      the policy reports. */
  datatype Reason =
    | TooShort(minLength: int)
    | Missing(k: CharClass)
    | NoChecker
    | CheckerError(description: string)
    | Breached
    | Passed

  /** The first character of each reason's text. */
  function Initial(reason: Reason): char {
    match reason
    case TooShort(_) => 'T'
    case Missing(_) => 'M'
    case NoChecker => 'B'
    case CheckerError(_) => 'E'
    case Breached => 'P'
    case Passed => 'P'
  }
  /** The message appended for each reason, character for character. */
  function Text(reason: Reason): (t: string)
    ensures |t| > 0 && t[0] == Initial(reason)
  {
    match reason
    case TooShort(m) => "Too short (minimum " + IntToString(m) + " characters)."
    case Missing(Upper) => "Missing uppercase character."
    case Missing(Lower) => "Missing lowercase character."
    case Missing(Digit) => "Missing digit."
    case Missing(Special) => "Missing special character (e.g., !@#$%)."
    // One message, written as two literals: the verifier does not index into
    // a literal this long, and the halves keep the first-character fact cheap.
    case NoChecker => "Breach check requested " + "but no hibp_check_fn provided."
    case CheckerError(d) => "Error checking breach status: " + d
    case Breached => "Password found in breach database (HIBP)."
    case Passed => "Password passed checks."
  }

  /** The reasons list as the strings the caller sees. */
  function Texts(reasons: seq<Reason>): (texts: seq<string>)
    ensures |texts| == |reasons|
    ensures forall i :: 0 <= i < |reasons| ==> texts[i] == Text(reasons[i])
  {
    seq(|reasons|, i requires 0 <= i < |reasons| => Text(reasons[i]))
  }

  lemma MissingTextInjective(j: CharClass, k: CharClass)
    ensures Text(Missing(j)) == Text(Missing(k)) ==> j == k
  {
  }

  lemma TooShortTextInjective(m: int, n: int)
    ensures Text(TooShort(m)) == Text(TooShort(n)) ==> m == n
  {
    var prefix, suffix := "Too short (minimum ", " characters).";
    var sm, sn := IntToString(m), IntToString(n);
    assert Text(TooShort(m)) == prefix + sm + suffix;
    assert Text(TooShort(n)) == prefix + sn + suffix;
    if Text(TooShort(m)) == Text(TooShort(n)) {
      assert |sm| == |sn|;
      assert sm == (prefix + sm + suffix)[|prefix|..|prefix| + |sm|];
      assert sn == (prefix + sn + suffix)[|prefix|..|prefix| + |sn|];
      IntToStringInjective(m, n);
    }
  }

  lemma CheckerErrorTextInjective(d: string, e: string)
    ensures Text(CheckerError(d)) == Text(CheckerError(e)) ==> d == e
  {
    var prefix := "Error checking breach status: ";
    assert Text(CheckerError(d)) == prefix + d && Text(CheckerError(e)) == prefix + e;
    assert (prefix + d)[|prefix|..] == d && (prefix + e)[|prefix|..] == e;
  }

  /** Distinct reasons have distinct texts, so a list of reasons and the list of
      their texts carry the same information. */
  lemma TextInjective(a: Reason, b: Reason)
    ensures Text(a) == Text(b) ==> a == b
  {
    if Text(a) == Text(b) {
      match a
      case TooShort(m) => TooShortTextInjective(m, b.minLength);
      case Missing(j) => MissingTextInjective(j, b.k);
      case CheckerError(d) => CheckerErrorTextInjective(d, b.description);
      case Breached => assert |Text(a)| != |Text(Passed)|;
      case Passed => assert |Text(a)| != |Text(Breached)|;
      case NoChecker =>
    }
  }

  /** The strings the caller sees determine the reasons list. */
  lemma {:induction false} TextsInjective(a: seq<Reason>, b: seq<Reason>)
    requires Texts(a) == Texts(b)
    ensures a == b
  {
    if a != [] {
      assert Texts(a)[0] == Texts(b)[0];
      TextInjective(a[0], b[0]);
      assert Texts(a[1..]) == Texts(a)[1..] && Texts(b[1..]) == Texts(b)[1..];
      TextsInjective(a[1..], b[1..]);
    }
  }

  datatype EvaluationResult = EvaluationResult(ok: bool, reasons: seq<Reason>, score: int, sha1: Sha1Hex)

  /** The length rule's failure reason, if any. */
  function LengthReasons(password: string, minLength: int): seq<Reason> {
    if |password| < minLength then [TooShort(minLength)] else []
  }

  function MissingIf(report: CharClassReport, k: CharClass): seq<Reason> {
    if Has(report, k) then [] else [Missing(k)]
  }

  /** One reason per missing class, in the order upper, lower, digit, special. */
  function ClassReasons(report: CharClassReport): seq<Reason> {
    MissingIf(report, Upper) + MissingIf(report, Lower) + MissingIf(report, Digit) + MissingIf(report, Special)
  }

  /** The breach rule's failure reason, if any. */
  function BreachReasons(checkBreach: bool, checker: Option<BreachChecker>, digest: string): seq<Reason> {
    if !checkBreach then []
    else match checker
      case None => [NoChecker]
      case Some(f) =>
        match f(digest)
        case Raised(d) => [CheckerError(d)]
        case Answered(b) => if b then [Breached] else []
  }

  /** Every failure reason, in the order the rules are applied. */
  function FailureReasons(password: string, minLength: int, checkBreach: bool,
                          checker: Option<BreachChecker>, digest: string): seq<Reason>
  {
    LengthReasons(password, minLength) + ClassReasons(CheckCharClasses(password))
      + BreachReasons(checkBreach, checker, digest)
  }

  /** Number of classes present. */
  function ClassCount(report: CharClassReport): (n: nat)
    ensures n <= 4
    ensures n == 4 <==> report.hasUpper && report.hasLower && report.hasDigit && report.hasSpecial
  {
    (if report.hasUpper then 1 else 0) + (if report.hasLower then 1 else 0)
      + (if report.hasDigit then 1 else 0) + (if report.hasSpecial then 1 else 0)
  }

  /** The score before any breach deduction: 30 for the minimum length, 15
      per class present, 10 for a length of at least 16. */
  function BaseScore(password: string, minLength: int): (s: int)
    ensures 0 <= s <= 100
  {
    (if |password| >= minLength then 30 else 0)
      + 15 * ClassCount(CheckCharClasses(password))
      + (if |password| >= 16 then 10 else 0)
  }

  /** The callback was called and answered "found". A raised exception
      counts as not breached. */
  predicate IsBreached(checkBreach: bool, checker: Option<BreachChecker>, digest: string) {
    checkBreach && checker.Some? && checker.value(digest) == Answered(true)
  }

  function Max(a: int, b: int): int {
    if a >= b then a else b
  }

  /** The final score: the base score, less 50 (floored at 0) when breached. */
  function FinalScore(password: string, minLength: int, checkBreach: bool,
                      checker: Option<BreachChecker>, digest: string): (s: int)
    ensures 0 <= s <= BaseScore(password, minLength) <= 100
    ensures !IsBreached(checkBreach, checker, digest) ==> s == BaseScore(password, minLength)
    ensures IsBreached(checkBreach, checker, digest) ==> s <= 50
  {
    var base := BaseScore(password, minLength);
    if IsBreached(checkBreach, checker, digest) then Max(0, base - 50) else base
  }

  /** The result the policy promises for one evaluation. */
  function Evaluation(password: string, minLength: int, checkBreach: bool,
                      checker: Option<BreachChecker>, sha1: string -> Sha1Hex): EvaluationResult
  {
    var digest := sha1(password);
    var failures := FailureReasons(password, minLength, checkBreach, checker, digest);
    EvaluationResult(failures == [], if failures == [] then [Passed] else failures,
                     FinalScore(password, minLength, checkBreach, checker, digest), digest)
  }

  lemma Regroup(l: seq<Reason>, a: seq<Reason>, b: seq<Reason>, c: seq<Reason>, d: seq<Reason>)
    ensures l + a + b + c + d == l + (a + b + c + d)
  {
  }

  /** One character-class rule: 15 points when the class is present, its
      "Missing" reason otherwise. */
  method ApplyClassRule(reasons: seq<Reason>, score: int, classes: CharClassReport, k: CharClass)
    returns (reasons': seq<Reason>, score': int)
    ensures reasons' == reasons + MissingIf(classes, k)
    ensures score' == score + (if Has(classes, k) then 15 else 0)
  {
    reasons', score' := reasons, score;
    if Has(classes, k) {
      score' := score' + 15;
    } else {
      reasons' := reasons' + [Missing(k)];
    }
  }

  /** The breach rule: only when requested; a missing callback and a raising
      callback each add their reason, and a "found" answer adds the breach
      reason and deducts 50 points, floored at 0. */
  method ApplyBreachRule(reasons: seq<Reason>, score: int, checkBreach: bool,
                         checker: Option<BreachChecker>, digest: string)
    returns (reasons': seq<Reason>, score': int)
    ensures reasons' == reasons + BreachReasons(checkBreach, checker, digest)
    ensures score' == if IsBreached(checkBreach, checker, digest) then Max(0, score - 50) else score
  {
    reasons', score' := reasons, score;
    if checkBreach {
      if checker.None? {
        reasons' := reasons' + [NoChecker];
      } else {
        var breached: bool;
        match checker.value(digest) {
          case Raised(d) =>
            reasons' := reasons' + [CheckerError(d)];
            breached := false;
          case Answered(b) =>
            breached := b;
        }
        if breached {
          reasons' := reasons' + [Breached];
          score' := Max(0, score' - 50);
        }
      }
    }
  }

  /** Scores and validates `password`, accumulating the score and the failure
      reasons rule by rule. SHA-1 is the parameter `sha1`; the breach callback
      is `checker`. */
  method EvaluatePassword(password: string, minLength: int, checkBreach: bool,
                          checker: Option<BreachChecker>, sha1: string -> Sha1Hex)
    returns (r: EvaluationResult)
    ensures r == Evaluation(password, minLength, checkBreach, checker, sha1)
  {
    var reasons: seq<Reason> := [];
    var score := 0;

    var length := |password|;
    if length < minLength {
      reasons := reasons + [TooShort(minLength)];
    } else {
      score := score + 30;
    }
    ghost var lengthPart, lengthPoints := reasons, score;
    assert lengthPart == LengthReasons(password, minLength);

    var classes := CheckCharClasses(password);
    reasons, score := ApplyClassRule(reasons, score, classes, Upper);
    reasons, score := ApplyClassRule(reasons, score, classes, Lower);
    reasons, score := ApplyClassRule(reasons, score, classes, Digit);
    reasons, score := ApplyClassRule(reasons, score, classes, Special);
    Regroup(lengthPart, MissingIf(classes, Upper), MissingIf(classes, Lower),
            MissingIf(classes, Digit), MissingIf(classes, Special));
    ghost var ruleReasons := reasons;
    assert score == lengthPoints + 15 * ClassCount(classes);
    assert ruleReasons == LengthReasons(password, minLength) + ClassReasons(classes);

    if length >= 16 {
      score := score + 10;
    }
    assert score == BaseScore(password, minLength);

    var digest := sha1(password);
    reasons, score := ApplyBreachRule(reasons, score, checkBreach, checker, digest);
    assert reasons == ruleReasons + BreachReasons(checkBreach, checker, digest);
    assert reasons == FailureReasons(password, minLength, checkBreach, checker, digest);

    var ok := |reasons| == 0;
    if ok {
      reasons := [Passed];
    }
    r := EvaluationResult(ok, reasons, score, digest);
  }

  // ---------------------------------------------------------------- properties of an evaluation

  /** The score is the weighted sum of the rules met (30 for the length, 15
      per class present, 10 for 16 characters or more), less 50 (floored at 0)
      when the callback reports a breach, and always lies in [0, 100]. */
  lemma ScoreFormula(password: string, minLength: int, checkBreach: bool,
                     checker: Option<BreachChecker>, sha1: string -> Sha1Hex)
    ensures var r := Evaluation(password, minLength, checkBreach, checker, sha1);
            var present := 4 - |Absent(password, ClassOrder)|;
            var weighted := (if |password| >= minLength then 30 else 0)
                            + 15 * present
                            + (if |password| >= 16 then 10 else 0);
            && 0 <= present <= 4
            && 0 <= r.score <= 100
            && r.score == if IsBreached(checkBreach, checker, r.sha1) then Max(0, weighted - 50) else weighted
  {
    var classes := CheckCharClasses(password);
    AbsentInClassOrder(password);
    assert |ClassReasons(classes)| == 4 - ClassCount(classes);
  }

  /** The "too short" reason is reported exactly when the password is shorter
      than the minimum, and it names that minimum. */
  lemma TooShortIff(password: string, minLength: int, checkBreach: bool,
                    checker: Option<BreachChecker>, sha1: string -> Sha1Hex)
    ensures var r := Evaluation(password, minLength, checkBreach, checker, sha1);
            && (TooShort(minLength) in r.reasons <==> |password| < minLength)
            && forall n :: TooShort(n) in r.reasons ==> n == minLength
  {
    var failures := FailureReasons(password, minLength, checkBreach, checker, sha1(password));
    assert Evaluation(password, minLength, checkBreach, checker, sha1).reasons
        == if failures == [] then [Passed] else failures;
    forall n ensures TooShort(n) in failures <==> n == minLength && |password| < minLength {
      TooShortInFailures(password, minLength, checkBreach, checker, sha1(password), n);
    }
  }

  /** Only the length rule reports "too short". */
  lemma TooShortInFailures(password: string, minLength: int, checkBreach: bool,
                           checker: Option<BreachChecker>, digest: string, n: int)
    ensures TooShort(n) in FailureReasons(password, minLength, checkBreach, checker, digest)
            <==> n == minLength && |password| < minLength
  {
    var classPart := ClassReasons(CheckCharClasses(password));
    var breachPart := BreachReasons(checkBreach, checker, digest);
    assert TooShort(n) !in classPart by {
      ClassReasonsAreMissing(CheckCharClasses(password));
      MissingOnlyKeepsKind(classPart);
    }
    assert TooShort(n) !in breachPart;
  }

  /** A list equal to its own "Missing" filter holds only "Missing" reasons. */
  lemma {:induction false} MissingOnlyKeepsKind(reasons: seq<Reason>)
    requires MissingOnly(reasons) == reasons
    ensures forall x :: x in reasons ==> x.Missing?
  {
    if reasons != [] {
      MissingOnlyShorter(reasons[1..]);
      assert reasons[0].Missing?;
      MissingOnlyKeepsKind(reasons[1..]);
    }
  }

  lemma {:induction false} MissingOnlyShorter(reasons: seq<Reason>)
    ensures |MissingOnly(reasons)| <= |reasons|
  {
    if reasons != [] {
      MissingOnlyShorter(reasons[1..]);
    }
  }


  /** A class's "Missing" reason is reported exactly when the password has no
      character of that class. */
  lemma MissingIff(password: string, minLength: int, checkBreach: bool,
                   checker: Option<BreachChecker>, sha1: string -> Sha1Hex, k: CharClass)
    ensures Missing(k) in Evaluation(password, minLength, checkBreach, checker, sha1).reasons
            <==> !HasClass(password, k)
  {
    var digest := sha1(password);
    var classes := CheckCharClasses(password);
    var failures := FailureReasons(password, minLength, checkBreach, checker, digest);
    var classPart := ClassReasons(classes);
    assert Has(classes, k) == HasClass(password, k);
    assert Missing(k) in classPart <==> !Has(classes, k) by {
      MissingIfIn(classes, k);
    }
    assert Missing(k) in failures <==> Missing(k) in classPart;
  }

  /** Only the rule of class `k` can report `Missing(k)`. */
  lemma MissingIfIn(classes: CharClassReport, k: CharClass)
    ensures Missing(k) in ClassReasons(classes) <==> !Has(classes, k)
  {
  }

  /** The "Missing" reasons of a list, in their order. */
  function MissingOnly(reasons: seq<Reason>): seq<Reason> {
    if reasons == [] then []
    else (if reasons[0].Missing? then [reasons[0]] else []) + MissingOnly(reasons[1..])
  }

  lemma {:induction false} MissingOnlyAppend(a: seq<Reason>, b: seq<Reason>)
    ensures MissingOnly(a + b) == MissingOnly(a) + MissingOnly(b)
  {
    if a == [] {
      assert a + b == b;
    } else {
      assert (a + b)[0] == a[0];
      assert (a + b)[1..] == a[1..] + b;
      MissingOnlyAppend(a[1..], b);
    }
  }

  /** The classes of `order` the password lacks, as "Missing" reasons, in
      the order given. */
  function Absent(password: string, order: seq<CharClass>): seq<Reason> {
    if order == [] then []
    else (if HasClass(password, order[0]) then [] else [Missing(order[0])]) + Absent(password, order[1..])
  }

  const ClassOrder := [Upper, Lower, Digit, Special]

  /** Each missing class contributes one reason, in the fixed order upper,
      lower, digit, special, and no other reason is a "Missing" one. */
  lemma MissingInFixedOrder(password: string, minLength: int, checkBreach: bool,
                            checker: Option<BreachChecker>, sha1: string -> Sha1Hex)
    ensures MissingOnly(Evaluation(password, minLength, checkBreach, checker, sha1).reasons)
            == Absent(password, ClassOrder)
  {
    var digest := sha1(password);
    var failures := FailureReasons(password, minLength, checkBreach, checker, digest);
    AbsentInClassOrder(password);
    FailuresMissingOnly(password, minLength, checkBreach, checker, digest);
    if failures == [] {
      assert MissingOnly([Passed]) == [];
    }
  }

  /** Among the failure reasons, the "Missing" ones are exactly the class
      rules' reasons. */
  lemma FailuresMissingOnly(password: string, minLength: int, checkBreach: bool,
                            checker: Option<BreachChecker>, digest: string)
    ensures MissingOnly(FailureReasons(password, minLength, checkBreach, checker, digest))
            == ClassReasons(CheckCharClasses(password))
  {
    var lengthPart, classPart, breachPart :=
      LengthReasons(password, minLength), ClassReasons(CheckCharClasses(password)),
      BreachReasons(checkBreach, checker, digest);
    ClassReasonsAreMissing(CheckCharClasses(password));
    MissingOnlyAppend(lengthPart + classPart, breachPart);
    MissingOnlyAppend(lengthPart, classPart);
    assert MissingOnly(lengthPart) == [] by {
      if lengthPart != [] { assert lengthPart[1..] == []; }
    }
    assert MissingOnly(breachPart) == [] by {
      if breachPart != [] { assert breachPart[1..] == []; }
    }
  }

  lemma AbsentInClassOrder(password: string)
    ensures Absent(password, ClassOrder) == ClassReasons(CheckCharClasses(password))
  {
    var classes := CheckCharClasses(password);
    assert classes == CharClassReport(HasClass(password, Upper), HasClass(password, Lower),
                                      HasClass(password, Digit), HasClass(password, Special));
    var order := ClassOrder;
    assert order[1..][1..][1..][1..] == [];
    assert Absent(password, order[1..][1..][1..]) == MissingIf(classes, Special);
    assert Absent(password, order[1..][1..]) == MissingIf(classes, Digit) + MissingIf(classes, Special);
    assert Absent(password, order[1..])
        == MissingIf(classes, Lower) + (MissingIf(classes, Digit) + MissingIf(classes, Special));
    assert Absent(password, order)
        == MissingIf(classes, Upper) + (MissingIf(classes, Lower) + (MissingIf(classes, Digit) + MissingIf(classes, Special)));
  }

  lemma ClassReasonsAreMissing(classes: CharClassReport)
    ensures MissingOnly(ClassReasons(classes)) == ClassReasons(classes)
  {
    var u, l, d, sp := MissingIf(classes, Upper), MissingIf(classes, Lower),
                       MissingIf(classes, Digit), MissingIf(classes, Special);
    MissingIfIsMissing(classes, Upper);
    MissingIfIsMissing(classes, Lower);
    MissingIfIsMissing(classes, Digit);
    MissingIfIsMissing(classes, Special);
    MissingOnlyAppend(u + l + d, sp);
    MissingOnlyAppend(u + l, d);
    MissingOnlyAppend(u, l);
  }

  lemma MissingIfIsMissing(classes: CharClassReport, k: CharClass)
    ensures MissingOnly(MissingIf(classes, k)) == MissingIf(classes, k)
  {
    if !Has(classes, k) {
      assert MissingIf(classes, k)[1..] == [];
    }
  }


  /** The password passes exactly when it meets the length and class rules and,
      if a breach check was asked for, a callback answered "not found"; the
      sentinel reason appears exactly then, and then alone. */
  lemma OkIff(password: string, minLength: int, checkBreach: bool,
              checker: Option<BreachChecker>, sha1: string -> Sha1Hex)
    ensures var r := Evaluation(password, minLength, checkBreach, checker, sha1);
            && (r.ok <==> && |password| >= minLength
                          && HasClass(password, Upper) && HasClass(password, Lower)
                          && HasClass(password, Digit) && HasClass(password, Special)
                          && (checkBreach ==> checker.Some? && checker.value(r.sha1) == Answered(false)))
            && (r.ok <==> Passed in r.reasons)
            && (r.ok ==> r.reasons == [Passed])
            && |r.reasons| >= 1
  {
    var r := Evaluation(password, minLength, checkBreach, checker, sha1);
    var digest := sha1(password);
    var classes := CheckCharClasses(password);
    if !r.ok {
      var breachPart := BreachReasons(checkBreach, checker, digest);
      assert r.reasons == LengthReasons(password, minLength) + ClassReasons(classes) + breachPart;
      assert Passed !in ClassReasons(classes);
      assert Passed !in breachPart;
    }
  }

  /** Asking for a breach check without a callback always fails the password,
      and costs no points. */
  lemma NoCheckerFails(password: string, minLength: int, sha1: string -> Sha1Hex)
    ensures var r := Evaluation(password, minLength, true, None, sha1);
            !r.ok && NoChecker in r.reasons && r.score == BaseScore(password, minLength)
  {
  }

  /** A callback that raises adds its error reason and counts as "not
      breached": no breach reason and no deduction. */
  lemma RaisingCheckerIsNotBreach(password: string, minLength: int,
                                  checker: BreachChecker, sha1: string -> Sha1Hex)
    requires checker(sha1(password)).Raised?
    ensures var r := Evaluation(password, minLength, true, Some(checker), sha1);
            && !r.ok
            && CheckerError(checker(sha1(password)).description) in r.reasons
            && Breached !in r.reasons
            && r.score == BaseScore(password, minLength)
  {
  }

  /** A callback that answers "found" adds the breach reason and deducts 50
      points, floored at 0. */
  lemma BreachDeducts(password: string, minLength: int,
                      checker: BreachChecker, sha1: string -> Sha1Hex)
    requires checker(sha1(password)) == Answered(true)
    ensures var r := Evaluation(password, minLength, true, Some(checker), sha1);
            && !r.ok
            && Breached in r.reasons
            && r.score == Max(0, BaseScore(password, minLength) - 50)
  {
  }

  /** A password that meets the length rule and has all four classes passes
      with 90 points, 100 from 16 characters on, when no breach check is asked. */
  lemma StrongPasswordPasses(password: string, minLength: int, sha1: string -> Sha1Hex)
    requires |password| >= minLength
    requires HasClass(password, Upper) && HasClass(password, Lower)
    requires HasClass(password, Digit) && HasClass(password, Special)
    ensures Evaluation(password, minLength, false, None, sha1)
            == EvaluationResult(true, [Passed], if |password| >= 16 then 100 else 90, sha1(password))
  {
  }

  // ---------------------------------------------------------------- generation

  /** `secrets.choice`: some element of a non-empty sequence. Which one is left
      open. */
  method Choice(s: string) returns (c: char)
    requires |s| > 0
    ensures c in s
  {
    var i :| 0 <= i < |s|;
    c := s[i];
  }

  /** `SystemRandom().shuffle`: the Fisher-Yates shuffle, each swap partner an
      arbitrary index at or below the current one. */
  method Shuffle(a: array<char>)
    modifies a
    ensures multiset(a[..]) == old(multiset(a[..]))
  {
    var i := a.Length - 1;
    while i > 0
      invariant i < a.Length
      invariant multiset(a[..]) == old(multiset(a[..]))
    {
      var j :| 0 <= j <= i;
      a[i], a[j] := a[j], a[i];
      i := i - 1;
    }
  }

  /** The characters the generator draws from. */
  function GenAlphabet(noSymbols: bool): string {
    if noSymbols then AsciiLetters + Digits else AsciiLetters + Digits + SpecialChars
  }

  /** Generates a password of the clamped length from the active alphabet,
      seeded with one character of each required class when asked to. */
  method GeneratePassword(length: int, noSymbols: bool, requireEachClass: bool)
    returns (password: string)
    ensures GenMinLength <= |password| <= GenMaxLength
    ensures GenMinLength <= length <= GenMaxLength ==> |password| == length
    ensures length < GenMinLength ==> |password| == GenMinLength
    ensures length > GenMaxLength ==> |password| == GenMaxLength
    ensures forall i :: 0 <= i < |password| ==> password[i] in GenAlphabet(noSymbols)
    ensures requireEachClass ==>
              HasClass(password, Upper) && HasClass(password, Lower) && HasClass(password, Digit)
    ensures requireEachClass && !noSymbols ==> HasClass(password, Special)
  {
    var n := length;
    if n < GenMinLength {
      n := GenMinLength;
    }
    if n > GenMaxLength {
      n := GenMaxLength;
    }

    var alphabet := AsciiLetters + Digits;
    var symbols := SpecialChars;
    if !noSymbols {
      alphabet := alphabet + symbols;
    }
    assert alphabet == GenAlphabet(noSymbols);

    var seeds: seq<char> := [];
    if requireEachClass {
      seeds := PickSeeds(noSymbols);
    }
    var chars := FillFrom(seeds, alphabet, n);
    PrefixAndRestDrawn(seeds, chars, alphabet);

    var a := new char[|chars|](i requires 0 <= i < |chars| => chars[i]);
    assert a[..] == chars;
    Shuffle(a);
    password := a[..];

    DrawnFromSurvives(chars, password, alphabet);
    if requireEachClass {
      assert chars[..4] == seeds;
      assert chars[0] == seeds[0] && chars[1] == seeds[1] && chars[2] == seeds[2] && chars[3] == seeds[3];
      SeedSurvives(chars, password, 0, Upper);
      SeedSurvives(chars, password, 1, Lower);
      SeedSurvives(chars, password, 2, Digit);
      if !noSymbols {
        SeedSurvives(chars, password, 3, Special);
      }
    }
  }

  /** The seed characters: an upper-case letter, a lower-case letter and a
      digit, then a special character, or one more lower-case letter when
      symbols are off. */
  method PickSeeds(noSymbols: bool) returns (seeds: seq<char>)
    ensures |seeds| == 4
    ensures InClass(seeds[0], Upper) && InClass(seeds[1], Lower) && InClass(seeds[2], Digit)
    ensures if noSymbols then InClass(seeds[3], Lower) else InClass(seeds[3], Special)
    ensures forall i :: 0 <= i < |seeds| ==> seeds[i] in GenAlphabet(noSymbols)
  {
    var upper := Choice(AsciiUppercase);
    var lower := Choice(AsciiLowercase);
    var digit := Choice(Digits);
    var last: char;
    if !noSymbols {
      last := Choice(SpecialChars);
    } else {
      last := Choice(AsciiLowercase);
    }
    seeds := [upper, lower, digit, last];
    SeedRanges(upper);
    SeedRanges(lower);
    SeedRanges(digit);
    SeedRanges(last);
    InAlphabet(upper, noSymbols);
    InAlphabet(lower, noSymbols);
    InAlphabet(digit, noSymbols);
    InAlphabet(last, noSymbols);
  }

  /** Every letter and digit, and every special character when symbols are
      on, is in the generator's alphabet. */
  lemma InAlphabet(c: char, noSymbols: bool)
    requires c in AsciiUppercase || c in AsciiLowercase || c in Digits || (!noSymbols && c in SpecialChars)
    ensures c in GenAlphabet(noSymbols)
  {
    assert AsciiLetters + Digits == AsciiLowercase + AsciiUppercase + Digits;
    assert AsciiLetters + Digits + SpecialChars == AsciiLowercase + AsciiUppercase + Digits + SpecialChars;
  }

  /** Appends characters drawn from `alphabet` until there are `n`. */
  method FillFrom(chars: seq<char>, alphabet: string, n: int) returns (filled: seq<char>)
    requires |alphabet| > 0
    ensures |filled| == if |chars| < n then n else |chars|
    ensures filled[..|chars|] == chars
    ensures forall i :: |chars| <= i < |filled| ==> filled[i] in alphabet
  {
    filled := chars;
    while |filled| < n
      invariant |chars| <= |filled| <= if |chars| < n then n else |chars|
      invariant filled[..|chars|] == chars
      invariant forall i :: |chars| <= i < |filled| ==> filled[i] in alphabet
      decreases n - |filled|
    {
      var c := Choice(alphabet);
      filled := filled + [c];
    }
  }

  /** The policy on a fixed password: "aB3!" at the default minimum fails on
      length alone, with 60 points. */
  lemma ShortSampleFails(password: string, sha1: string -> Sha1Hex)
    requires password == "aB3!"
    ensures var r := Evaluation(password, DefaultMinLength, false, None, sha1);
            !r.ok && r.reasons == [TooShort(12)] && r.score == 60
  {
    AllClassesPresent(password, 1, 0, 2, 3);
  }

  /** The policy on a fixed password: "StrongPassw0rd!" at a minimum of 8
      passes, with 90 points. */
  lemma StrongSamplePasses(password: string, sha1: string -> Sha1Hex)
    requires password == "StrongPassw0rd!"
    ensures var r := Evaluation(password, 8, false, None, sha1);
            r.ok && r.reasons == [Passed] && r.score == 90
  {
    AllClassesPresent(password, 0, 1, 11, 14);
  }

  /** The class flags on a fixed password: "Ab1!" has all four classes. */
  lemma MixedSampleHasAllClasses(password: string)
    requires password == "Ab1!"
    ensures CheckCharClasses(password) == CharClassReport(true, true, true, true)
  {
    AllClassesPresent(password, 0, 1, 2, 3);
  }

  /** A password with an upper-case letter, a lower-case letter, a digit and a
      special character at the given positions has all four classes. */
  lemma AllClassesPresent(password: string, u: nat, l: nat, d: nat, sp: nat)
    requires u < |password| && l < |password| && d < |password| && sp < |password|
    requires 'A' <= password[u] <= 'Z' && 'a' <= password[l] <= 'z' && '0' <= password[d] <= '9'
    requires password[sp] == '!'
    ensures CheckCharClasses(password) == CharClassReport(true, true, true, true)
  {
    assert SpecialChars[0] == '!';
    assert InClass(password[u], Upper) && InClass(password[l], Lower) && InClass(password[d], Digit);
    assert InClass(password[sp], Special);
  }

  /** No letter or digit is a special character. */
  lemma AlphanumericNotSpecial(c: char)
    requires c in AsciiLetters + Digits
    ensures c !in SpecialChars
  {
    SeedRanges(c);
    assert 'A' <= c <= 'Z' || 'a' <= c <= 'z' || '0' <= c <= '9';
    forall i | 0 <= i < |SpecialChars| ensures SpecialChars[i] != c {
    }
  }

  /** With `noSymbols` set, a generated password has no special character. */
  lemma NoSymbolsLacksSpecial(password: string)
    requires forall i :: 0 <= i < |password| ==> password[i] in GenAlphabet(true)
    ensures !HasClass(password, Special)
  {
    forall i | 0 <= i < |password| ensures !InClass(password[i], Special) {
      AlphanumericNotSpecial(password[i]);
    }
  }

  /** So the policy always rejects a password generated with `noSymbols`, as
      missing a special character. */
  lemma NoSymbolsFailsPolicy(password: string, minLength: int, checkBreach: bool,
                             checker: Option<BreachChecker>, sha1: string -> Sha1Hex)
    requires forall i :: 0 <= i < |password| ==> password[i] in GenAlphabet(true)
    ensures var r := Evaluation(password, minLength, checkBreach, checker, sha1);
            !r.ok && Missing(Special) in r.reasons
  {
    NoSymbolsLacksSpecial(password);
    MissingIff(password, minLength, checkBreach, checker, sha1, Special);
    OkIff(password, minLength, checkBreach, checker, sha1);
  }

  /** A password of generator length holding every class (what the generator
      promises with symbols and `requireEachClass`) passes the policy with the
      full score whenever the minimum is at most the generator's minimum. */
  lemma GeneratedPasswordPasses(password: string, minLength: int, sha1: string -> Sha1Hex)
    requires GenMinLength <= |password| <= GenMaxLength
    requires HasClass(password, Upper) && HasClass(password, Lower)
    requires HasClass(password, Digit) && HasClass(password, Special)
    requires minLength <= GenMinLength
    ensures Evaluation(password, minLength, false, None, sha1) == EvaluationResult(true, [Passed], 100, sha1(password))
  {
  }

  /** Seeds from the alphabet followed by draws from it are all from it. */
  lemma PrefixAndRestDrawn(seeds: seq<char>, chars: seq<char>, alphabet: string)
    requires |seeds| <= |chars| && chars[..|seeds|] == seeds
    requires forall i :: 0 <= i < |seeds| ==> seeds[i] in alphabet
    requires forall i :: |seeds| <= i < |chars| ==> chars[i] in alphabet
    ensures forall i :: 0 <= i < |chars| ==> chars[i] in alphabet
  {
    forall i | 0 <= i < |seeds| ensures chars[i] in alphabet {
      assert chars[i] == chars[..|seeds|][i];
    }
  }

  /** Drawing every character from an alphabet survives any permutation. */
  lemma DrawnFromSurvives(before: seq<char>, after: seq<char>, alphabet: string)
    requires multiset(after) == multiset(before)
    requires forall i :: 0 <= i < |before| ==> before[i] in alphabet
    ensures forall i :: 0 <= i < |after| ==> after[i] in alphabet
  {
    forall i | 0 <= i < |after| ensures after[i] in alphabet {
      assert after[i] in multiset(after);
      assert after[i] in before;
    }
  }

  /** A character of a class keeps the class present through any permutation. */
  lemma SeedSurvives(before: seq<char>, after: seq<char>, i: nat, k: CharClass)
    requires multiset(after) == multiset(before)
    requires i < |before| && InClass(before[i], k)
    ensures HasClass(after, k)
  {
    assert before[i] in multiset(before);
    assert before[i] in after;
  }
}
