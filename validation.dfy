/** The input checks of server.js: `validatePassword`, the e-mail pattern, the
    required-field guards of the sign-up handlers, the bearer-token gate of
    `requireAuth`, and the "must start with select" guard on generated SQL. */
module Validation {
  import opened Text
  import opened Js
  import opened Http

  // ----- validatePassword

  const MinLength: nat := 8

  /** `password.length`: UTF-16 code units, so a character outside the Basic
      Multilingual Plane counts twice. */
  function Utf16Length(p: string): (n: nat)
    ensures |p| <= n <= 2 * |p|
  {
    if p == [] then 0 else (if p[0] as int >= 0x1_0000 then 2 else 1) + Utf16Length(p[1..])
  }

  /** `/[A-Z]/.test(p)` */
  predicate HasUpper(p: string) { exists i :: 0 <= i < |p| && 'A' <= p[i] <= 'Z' }

  /** `/[0-9]/.test(p)` */
  predicate HasDigit(p: string) { exists i :: 0 <= i < |p| && IsDigit(p[i]) }

  predicate IsSpecial(c: char)
  {
    c == '!' || c == '@' || c == '#' || c == '$' || c == '%' || c == '^' || c == '&' || c == '*'
  }

  /** `/[!@#$%^&*]/.test(p)` */
  predicate HasSpecial(p: string) { exists i :: 0 <= i < |p| && IsSpecial(p[i]) }

  /** The four rules, in the order `validatePassword` checks them. */
  datatype PasswordRule = LengthRule | UppercaseRule | NumberRule | SpecialRule

  const PasswordRules: seq<PasswordRule> := [LengthRule, UppercaseRule, NumberRule, SpecialRule]

  predicate Satisfies(p: string, rule: PasswordRule)
  {
    match rule
    case LengthRule => Utf16Length(p) >= MinLength
    case UppercaseRule => HasUpper(p)
    case NumberRule => HasDigit(p)
    case SpecialRule => HasSpecial(p)
  }

  function RuleMessage(rule: PasswordRule): string
  {
    match rule
    case LengthRule => "Password must be at least 8 characters long"
    case UppercaseRule => "Password must contain at least one uppercase letter"
    case NumberRule => "Password must contain at least one number"
    case SpecialRule => "Password must contain at least one special character (!@#$%^&*)"
  }

  /** The message a single rule contributes. */
  function MessageIfFailed(p: string, rule: PasswordRule): seq<string>
  {
    if Satisfies(p, rule) then [] else [RuleMessage(rule)]
  }

  /** The messages of the rules in `rules` that `p` fails, in the order of `rules`. */
  function FailedMessages(p: string, rules: seq<PasswordRule>): seq<string>
  {
    if rules == [] then []
    else MessageIfFailed(p, rules[0]) + FailedMessages(p, rules[1..])
  }

  predicate PasswordAcceptable(p: string)
  {
    Utf16Length(p) >= MinLength && HasUpper(p) && HasDigit(p) && HasSpecial(p)
  }

  lemma FailedMessagesCons(p: string, r: PasswordRule, rest: seq<PasswordRule>)
    ensures FailedMessages(p, [r] + rest) == MessageIfFailed(p, r) + FailedMessages(p, rest)
  {
    assert ([r] + rest)[1..] == rest;
  }

  lemma FailedMessagesOfOne(p: string, d: PasswordRule)
    ensures FailedMessages(p, [d]) == MessageIfFailed(p, d)
  {
    assert [d][1..] == [];
  }

  lemma FailedMessagesOfTwo(p: string, c: PasswordRule, d: PasswordRule)
    ensures FailedMessages(p, [c, d]) == MessageIfFailed(p, c) + FailedMessages(p, [d])
  {
    assert [c, d][1..] == [d];
  }

  lemma FailedMessagesOfThree(p: string, b: PasswordRule, c: PasswordRule, d: PasswordRule)
    ensures FailedMessages(p, [b, c, d]) == MessageIfFailed(p, b) + FailedMessages(p, [c, d])
  {
    assert [b, c, d][1..] == [c, d];
  }

  lemma {:induction false} FailedMessagesOfFour(p: string, a: PasswordRule, b: PasswordRule, c: PasswordRule, d: PasswordRule)
    ensures FailedMessages(p, [a, b, c, d])
      == ((MessageIfFailed(p, a) + MessageIfFailed(p, b)) + MessageIfFailed(p, c)) + MessageIfFailed(p, d)
  {
    assert [a, b, c, d][1..] == [b, c, d];
    FailedMessagesOfThree(p, b, c, d);
    FailedMessagesOfTwo(p, c, d);
    FailedMessagesOfOne(p, d);
    ConcatFour(MessageIfFailed(p, a), MessageIfFailed(p, b), MessageIfFailed(p, c), MessageIfFailed(p, d));
  }

  lemma ConcatFour(w: seq<string>, x: seq<string>, y: seq<string>, z: seq<string>)
    ensures w + (x + (y + z)) == ((w + x) + y) + z
  {
  }

  /** `validatePassword`: one check after another, each failure pushing its message. */
  method ValidatePassword(password: string) returns (isValid: bool, errors: seq<string>)
    ensures errors == FailedMessages(password, PasswordRules)
    ensures isValid <==> errors == []
    ensures isValid <==> PasswordAcceptable(password)
  {
    errors := [];
    if Utf16Length(password) < MinLength {
      errors := errors + [RuleMessage(LengthRule)];
    }
    ghost var m0 := MessageIfFailed(password, LengthRule);
    assert errors == m0;
    if !HasUpper(password) {
      errors := errors + [RuleMessage(UppercaseRule)];
    }
    ghost var m1 := MessageIfFailed(password, UppercaseRule);
    assert errors == m0 + m1;
    if !HasDigit(password) {
      errors := errors + [RuleMessage(NumberRule)];
    }
    ghost var m2 := MessageIfFailed(password, NumberRule);
    assert errors == (m0 + m1) + m2;
    if !HasSpecial(password) {
      errors := errors + [RuleMessage(SpecialRule)];
    }
    ghost var m3 := MessageIfFailed(password, SpecialRule);
    assert errors == ((m0 + m1) + m2) + m3;
    FailedMessagesOfFour(password, LengthRule, UppercaseRule, NumberRule, SpecialRule);
    isValid := |errors| == 0;
  }

  /** No two rules share a message. */
  lemma RuleMessageInjective(a: PasswordRule, b: PasswordRule)
    ensures RuleMessage(a) == RuleMessage(b) ==> a == b
  {
    if a != b {
      assert |RuleMessage(a)| != |RuleMessage(b)|;
    }
  }

  /** Each rule's message appears once when the password fails that rule and not at all
      when it passes it. */
  lemma {:induction false} OneMessagePerFailedRule(p: string, rules: seq<PasswordRule>, rule: PasswordRule)
    requires forall i, j :: 0 <= i < j < |rules| ==> rules[i] != rules[j]
    ensures multiset(FailedMessages(p, rules))[RuleMessage(rule)]
      == if rule in rules && !Satisfies(p, rule) then 1 else 0
  {
    if rules != [] {
      OneMessagePerFailedRule(p, rules[1..], rule);
      RuleMessageInjective(rules[0], rule);
      assert rule in rules[1..] ==> rule != rules[0];
      assert rule in rules && rule != rules[0] ==> rule in rules[1..];
    }
  }

  /** For the four rules of `validatePassword`: the errors name exactly the failed rules. */
  lemma PasswordErrorsExact(p: string, rule: PasswordRule)
    ensures multiset(FailedMessages(p, PasswordRules))[RuleMessage(rule)] == if Satisfies(p, rule) then 0 else 1
  {
    OneMessagePerFailedRule(p, PasswordRules, rule);
    assert rule in PasswordRules;
  }

  /** The messages follow the rules' order: a later rule's message never comes first. */
  lemma {:induction false} FailedMessagesInRuleOrder(p: string, rules: seq<PasswordRule>, i: int, j: int)
    requires 0 <= i < j < |rules| && !Satisfies(p, rules[i]) && !Satisfies(p, rules[j])
    ensures exists a, b ::
              0 <= a < b < |FailedMessages(p, rules)| && FailedMessages(p, rules)[a] == RuleMessage(rules[i])
              && FailedMessages(p, rules)[b] == RuleMessage(rules[j])
  {
    var head, rest := MessageIfFailed(p, rules[0]), FailedMessages(p, rules[1..]);
    assert FailedMessages(p, rules) == head + rest;
    if i == 0 {
      MessageOfFailedRule(p, rules[1..], j - 1);
      assert head == [RuleMessage(rules[0])];
      PairAfterHead(RuleMessage(rules[0]), rest, RuleMessage(rules[j]));
    } else {
      FailedMessagesInRuleOrder(p, rules[1..], i - 1, j - 1);
      PairShifts(head, rest, RuleMessage(rules[i]), RuleMessage(rules[j]));
    }
  }

  lemma PairAfterHead(x: string, rest: seq<string>, y: string)
    requires exists b :: 0 <= b < |rest| && rest[b] == y
    ensures exists a, b :: 0 <= a < b < |[x] + rest| && ([x] + rest)[a] == x && ([x] + rest)[b] == y
  {
    var b :| 0 <= b < |rest| && rest[b] == y;
    assert ([x] + rest)[0] == x && ([x] + rest)[b + 1] == y;
  }

  lemma PairShifts(head: seq<string>, rest: seq<string>, x: string, y: string)
    requires exists a, b :: 0 <= a < b < |rest| && rest[a] == x && rest[b] == y
    ensures exists a, b :: 0 <= a < b < |head + rest| && (head + rest)[a] == x && (head + rest)[b] == y
  {
    var a, b :| 0 <= a < b < |rest| && rest[a] == x && rest[b] == y;
    assert (head + rest)[|head| + a] == x && (head + rest)[|head| + b] == y;
  }

  lemma {:induction false} MessageOfFailedRule(p: string, rules: seq<PasswordRule>, j: int)
    requires 0 <= j < |rules| && !Satisfies(p, rules[j])
    ensures exists b :: 0 <= b < |FailedMessages(p, rules)| && FailedMessages(p, rules)[b] == RuleMessage(rules[j])
  {
    var head := MessageIfFailed(p, rules[0]);
    var rest := FailedMessages(p, rules[1..]);
    assert FailedMessages(p, rules) == head + rest;
    if j == 0 {
      assert FailedMessages(p, rules)[0] == RuleMessage(rules[0]);
    } else {
      MessageOfFailedRule(p, rules[1..], j - 1);
      var b :| 0 <= b < |rest| && rest[b] == RuleMessage(rules[j]);
      assert FailedMessages(p, rules)[|head| + b] == rest[b];
    }
  }

  // ----- The e-mail pattern /^[^\s@]+@[^\s@]+\.[^\s@]+$/

  /** A match of `[^\s@]+`. */
  predicate EmailPart(p: string)
  {
    p != [] && forall k :: 0 <= k < |p| ==> !IsJsWhitespace(p[k]) && p[k] != '@'
  }

  /** `s` matches the pattern with its `@` at `i` and its `\.` at `j`. */
  predicate EmailSplitAt(s: string, i: int, j: int)
  {
    0 < i < j < |s| && s[i] == '@' && s[j] == '.'
    && EmailPart(s[..i]) && EmailPart(s[i + 1..j]) && EmailPart(s[j + 1..])
  }

  ghost predicate MatchesEmailPattern(s: string)
  {
    exists i, j :: EmailSplitAt(s, i, j)
  }

  /** `s[i]` is the only `@` of `s`. */
  predicate OnlyAt(s: string, i: int)
  {
    forall k :: 0 <= k < |s| && k != i ==> s[k] != '@'
  }

  /** `emailRegex.test(email)`, decided by the shape of an address: no white space,
      exactly one `@` with something before it, and after it a `.` that is neither the
      first nor the last character of the domain. */
  function IsValidEmail(s: string): bool
  {
    NoWhitespace(s)
    && exists i :: 0 < i < |s| && s[i] == '@' && OnlyAt(s, i)
         && exists j :: i + 1 < j < |s| - 1 && s[j] == '.'
  }

  lemma {:induction false} EmailCheckSound(s: string)
    requires IsValidEmail(s)
    ensures MatchesEmailPattern(s)
  {
    var i :| 0 < i < |s| && s[i] == '@' && OnlyAt(s, i) && exists j :: i + 1 < j < |s| - 1 && s[j] == '.';
    var j :| i + 1 < j < |s| - 1 && s[j] == '.';
    assert forall k :: 0 <= k < i ==> s[..i][k] == s[k];
    assert forall k :: i < k < j ==> s[i + 1..j][k - i - 1] == s[k];
    assert forall k :: j < k < |s| ==> s[j + 1..][k - j - 1] == s[k];
    assert EmailSplitAt(s, i, j);
  }

  lemma {:induction false} EmailCheckComplete(s: string)
    requires MatchesEmailPattern(s)
    ensures IsValidEmail(s)
  {
    var i, j :| EmailSplitAt(s, i, j);
    var a, b, c := s[..i], s[i + 1..j], s[j + 1..];
    assert forall k :: 0 <= k < i ==> s[k] == a[k];
    assert forall k :: i < k < j ==> s[k] == b[k - i - 1];
    assert forall k :: j < k < |s| ==> s[k] == c[k - j - 1];
    assert OnlyAt(s, i);
    assert NoWhitespace(s);
  }

  /** The address check accepts exactly the strings the regular expression matches. */
  lemma EmailCheckMatchesPattern(s: string)
    ensures IsValidEmail(s) <==> MatchesEmailPattern(s)
  {
    if IsValidEmail(s) { EmailCheckSound(s); }
    if MatchesEmailPattern(s) { EmailCheckComplete(s); }
  }

  // ----- The sign-up guards

  /** The checks `/api/signup` and `/api/admin/signup` make before touching the store:
      every field present, the address well-formed, the password acceptable.
      `None` lets the request through to the registration itself. */
  method RegistrationGate(fields: seq<JsValue>, email: string, password: string) returns (rejection: Option<Response>)
    ensures MissingRequired(fields) ==> rejection == Some(Error(400, "All fields are required"))
    ensures !MissingRequired(fields) && !IsValidEmail(email) ==> rejection == Some(Error(400, "Invalid email format"))
    ensures !MissingRequired(fields) && IsValidEmail(email) && !PasswordAcceptable(password) ==>
      rejection == Some(Response(400, ErrorWithDetails("Password validation failed", FailedMessages(password, PasswordRules))))
    ensures rejection.None? <==> !MissingRequired(fields) && IsValidEmail(email) && PasswordAcceptable(password)
  {
    if MissingRequired(fields) {
      return Some(Error(400, "All fields are required"));
    }
    if !IsValidEmail(email) {
      return Some(Error(400, "Invalid email format"));
    }
    var isValid, errors := ValidatePassword(password);
    if !isValid {
      return Some(Response(400, ErrorWithDetails("Password validation failed", errors)));
    }
    return None;
  }

  /** `/api/signup`: all five fields are required. */
  method SignupGate(email: string, name: JsValue, password: string, phoneNo: JsValue, address: JsValue)
    returns (rejection: Option<Response>)
    ensures rejection.None? <==>
      email != "" && Truthy(name) && password != "" && Truthy(phoneNo) && Truthy(address)
      && IsValidEmail(email) && PasswordAcceptable(password)
  {
    var fields := [Str(email), name, Str(password), phoneNo, address];
    rejection := RegistrationGate(fields, email, password);
    assert !MissingRequired(fields) <==> forall i :: 0 <= i < |fields| ==> Truthy(fields[i]);
    assert (forall i :: 0 <= i < |fields| ==> Truthy(fields[i])) <==>
      Truthy(fields[0]) && Truthy(fields[1]) && Truthy(fields[2]) && Truthy(fields[3]) && Truthy(fields[4]);
  }

  /** `/api/admin/signup`: e-mail, password and name are required. */
  method AdminSignupGate(email: string, password: string, name: JsValue) returns (rejection: Option<Response>)
    ensures rejection.None? <==>
      email != "" && password != "" && Truthy(name) && IsValidEmail(email) && PasswordAcceptable(password)
  {
    var fields := [Str(email), Str(password), name];
    rejection := RegistrationGate(fields, email, password);
    assert !MissingRequired(fields) <==> forall i :: 0 <= i < |fields| ==> Truthy(fields[i]);
    assert (forall i :: 0 <= i < |fields| ==> Truthy(fields[i])) <==>
      Truthy(fields[0]) && Truthy(fields[1]) && Truthy(fields[2]);
  }

  // ----- requireAuth

  /** `req.headers.authorization?.split(' ')[1]`: the second space-separated field, if any. */
  function BearerToken(header: Option<string>): (token: Option<string>)
    ensures token.Some? ==> header.Some? && ' ' !in token.value
  {
    if header.None? then None
    else
      var parts := Split(header.value, ' ');
      if |parts| < 2 then None else Some(parts[1])
  }

  lemma {:induction false} SplitWithoutSeparator(s: string, sep: char)
    requires sep !in s
    ensures Split(s, sep) == [s]
  {
    if s != [] {
      SplitWithoutSeparator(s[1..], sep);
      assert [s[0]] + s[1..] == s;
    }
  }

  lemma {:induction false} SplitAfterField(a: string, sep: char, b: string)
    requires sep !in a
    ensures Split(a + [sep] + b, sep) == [a] + Split(b, sep)
  {
    if a == [] {
      assert a + [sep] + b == [sep] + b;
      assert ([sep] + b)[1..] == b;
    } else {
      SplitAfterField(a[1..], sep, b);
      assert (a + [sep] + b)[1..] == a[1..] + [sep] + b;
      assert [a[0]] + a[1..] == a;
    }
  }

  /** A header without a space, such as a bare token, carries no token. */
  lemma NoSpaceNoToken(header: string)
    requires ' ' !in header
    ensures BearerToken(Some(header)).None?
  {
    SplitWithoutSeparator(header, ' ');
  }

  /** Whatever the scheme word, the token is the field after the first space, up to
      the next space or the end. */
  lemma BearerTokenOf(scheme: string, token: string, rest: string)
    requires ' ' !in scheme && ' ' !in token
    requires rest == [] || rest[0] == ' '
    ensures BearerToken(Some(scheme + " " + token + rest)) == Some(token)
  {
    SplitAfterField(scheme, ' ', token + rest);
    assert scheme + " " + token + rest == scheme + [' '] + (token + rest);
    if rest == [] {
      SplitWithoutSeparator(token, ' ');
      assert token + rest == token;
    } else {
      SplitAfterField(token, ' ', rest[1..]);
      assert token + rest == token + [' '] + rest[1..];
    }
  }

  /** The gate in front of the protected endpoints. `tokenAccepted` is whether
      `jwt.verify` accepts the token; `None` lets the request through. */
  function RequireAuth(header: Option<string>, tokenAccepted: bool): (rejection: Option<Response>)
    ensures rejection.None? <==> BearerToken(header).Some? && BearerToken(header).value != "" && tokenAccepted
    ensures rejection.Some? ==> rejection.value.status == 401
  {
    var token := BearerToken(header);
    if token.None? || token.value == "" then Some(Error(401, "Authentication required"))
    else if !tokenAccepted then Some(Error(401, "Invalid token"))
    else None
  }

  // ----- The guard on generated SQL

  datatype GeneratedSql = Accepted(sql: string) | Rejected(message: string)

  const SelectOnlyMessage := "Failed to generate SQL query: Only SELECT queries are allowed for security reasons"

  /** The end of `generateSQLFromText`: trim the model's answer and let it through only
      when, lower-cased, it starts with `select`. */
  function GuardGeneratedSql(text: string): GeneratedSql
  {
    var sql := Trim(text);
    if StartsWith(ToLower(sql), "select") then Accepted(sql) else Rejected(SelectOnlyMessage)
  }

  /** Lower-cased, `sql` starts with `select` exactly when its first six characters do, one by one. */
  lemma {:induction false} LowerStartsWithSelect(sql: string)
    ensures StartsWith(ToLower(sql), "select") <==>
      |sql| >= 6 && forall k :: 0 <= k < 6 ==> LowerChar(sql[k]) == "select"[k]
  {
    if |sql| >= 6 {
      var l := ToLower(sql)[..6];
      assert forall k :: 0 <= k < 6 ==> l[k] == LowerChar(sql[k]);
      if forall k :: 0 <= k < 6 ==> LowerChar(sql[k]) == "select"[k] {
        assert l == "select";
      }
    }
  }

  /** `trim` leaves no white space at either end. */
  lemma {:induction false} TrimmedEnds(text: string)
    ensures var sql := Trim(text);
      sql == [] || (!IsJsWhitespace(sql[0]) && !IsJsWhitespace(sql[|sql| - 1]))
  {
    var t := TrimStart(text);
    var sql := TrimEnd(t);
    if sql != [] {
      assert t[..|sql|] == sql;
      assert sql[0] == t[0];
    }
  }

  /** The guard accepts exactly the answers whose first six characters, after trimming,
      spell `select` in any case, and what it passes on has no white space at either end. */
  lemma SelectGuardAccepts(text: string)
    ensures GuardGeneratedSql(text).Accepted? <==>
      |Trim(text)| >= 6 && forall k :: 0 <= k < 6 ==> LowerChar(Trim(text)[k]) == "select"[k]
    ensures GuardGeneratedSql(text).Accepted? ==>
      var sql := GuardGeneratedSql(text).sql;
      sql != [] && !IsJsWhitespace(sql[0]) && !IsJsWhitespace(sql[|sql| - 1])
  {
    LowerStartsWithSelect(Trim(text));
    TrimmedEnds(text);
  }
}
