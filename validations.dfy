/** Form validation rules: `required`, the `length` rule factory, `email`,
    the rule runner `validate` and the `validation` delegate object.
    Every rule maps a value and an optional name to a `Status`. */
module Validations {
  import opened Wrappers

  /** The result of one check: `message` is the JavaScript optional property. */
  datatype Status = Status(valid: bool, message: Option<string>)

  /** A rule takes the value and the name. `None` for the name is a call
      that leaves the argument out, so that a default parameter applies. */
  type Rule = (string, Option<string>) -> Status

  /** The shape every built-in rule keeps: a message exactly on failure. */
  predicate WellFormed(s: Status) {
    s.message.None? <==> s.valid
  }

  ghost predicate WellFormedRule(rule: Rule) {
    forall value, name :: WellFormed(rule(value, name))
  }

  // ---------------------------------------------------------------------
  // required

  /** `required(value, name = value)`: `Boolean(value)` holds of a string
      exactly when it is not empty. */
  function Required(value: string, name: Option<string>): (s: Status)
    ensures s.valid <==> |value| > 0
    ensures WellFormed(s)
    ensures !s.valid ==> s.message == Some(name.GetOr(value) + " is required")
  {
    var ok := |value| > 0;
    Status(ok, if ok then None else Some(name.GetOr(value) + " is required"))
  }

  // ---------------------------------------------------------------------
  // length

  const BetweenText: string := " must be between "
  const AndText: string := " and "

  /** The failure message of `length`: the label, then the two bounds in
      decimal, each at its place in the fixed wording. */
  function LengthMessage(name: string, min: int, max: int): (m: string)
    ensures var lo, hi := IntToString(min), IntToString(max);
      var textEnd := |name| + |BetweenText|;
      var loEnd := textEnd + |lo|;
      var andEnd := loEnd + |AndText|;
      |m| == andEnd + |hi| &&
      m[..|name|] == name && m[|name|..textEnd] == BetweenText &&
      m[textEnd..loEnd] == lo && m[loEnd..andEnd] == AndText && m[andEnd..] == hi
  {
    var lo, hi := IntToString(min), IntToString(max);
    LengthMessageParts(name, BetweenText, lo, AndText, hi);
    name + BetweenText + lo + AndText + hi
  }

  /** Where each piece of a five-part concatenation sits. */
  lemma LengthMessageParts(a: string, b: string, c: string, d: string, e: string)
    ensures var m := a + b + c + d + e;
      var i, j, k := |a|, |a| + |b|, |a| + |b| + |c|;
      var l := k + |d|;
      |m| == l + |e| && m[..i] == a && m[i..j] == b && m[j..k] == c && m[k..l] == d && m[l..] == e
  {
  }

  /** `length({min, max}, name)`: a rule whose bounds are exclusive and
      whose message always uses the name bound here, never the one the
      rule is later called with. */
  function Length(min: int, max: int, name: string): (rule: Rule)
    ensures forall value, given :: rule(value, given).valid <==> min < |value| < max
    ensures forall value, given :: rule(value, given) == rule(value, None)
    ensures forall value, given :: WellFormed(rule(value, given))
    ensures forall value, given :: !rule(value, given).valid ==>
              rule(value, given).message == Some(LengthMessage(name, min, max))
  {
    (value: string, given: Option<string>) =>
      var ok := |value| > min && |value| < max;
      Status(ok, if ok then None else Some(LengthMessage(name, min, max)))
  }

  /** Both boundary lengths are rejected. */
  lemma LengthBoundsExclusive(min: int, max: int, name: string, value: string, given: Option<string>)
    requires |value| == min || |value| == max
    ensures !Length(min, max, name)(value, given).valid
    ensures Length(min, max, name)(value, given).message == Some(LengthMessage(name, min, max))
  {
  }

  // ---------------------------------------------------------------------
  // email: /^\w+@[a-zA-Z_0-9]+?\.[a-zA-Z]{2,6}$/

  /** `\w` without the `u` flag, which is also `[a-zA-Z_0-9]`. */
  predicate IsWordChar(c: char) {
    ('a' <= c <= 'z') || ('A' <= c <= 'Z') || ('0' <= c <= '9') || c == '_'
  }

  predicate IsAsciiLetter(c: char) {
    ('a' <= c <= 'z') || ('A' <= c <= 'Z')
  }

  predicate AllWordChars(s: string) {
    forall k :: 0 <= k < |s| ==> IsWordChar(s[k])
  }

  predicate AllAsciiLetters(s: string) {
    forall k :: 0 <= k < |s| ==> IsAsciiLetter(s[k])
  }

  /** The three parts the pattern accepts around `@` and `.`. */
  predicate EmailParts(local: string, domain: string, tld: string) {
    |local| > 0 && AllWordChars(local) &&
    |domain| > 0 && AllWordChars(domain) &&
    2 <= |tld| <= 6 && AllAsciiLetters(tld)
  }

  /** The language of the anchored pattern, stated as a decomposition.
      The lazy `+?` does not change it: laziness picks which match is found,
      never whether one exists. */
  ghost predicate EmailShape(value: string) {
    exists local, domain, tld :: EmailParts(local, domain, tld) &&
      value == local + "@" + domain + "." + tld
  }

  /** The length of the longest prefix of word characters. */
  function WordRun(s: string): (n: nat)
    ensures n <= |s|
    ensures AllWordChars(s[..n])
    ensures n == |s| || !IsWordChar(s[n])
  {
    if s == [] || !IsWordChar(s[0]) then 0
    else
      var n := 1 + WordRun(s[1..]);
      assert s[..n] == [s[0]] + s[1..][..n - 1];
      n
  }

  /** A left-to-right scan that decides the pattern: since neither `@` nor
      `.` is a word character, each part ends at the first non-word one. */
  function MatchesEmail(value: string): (r: bool)
    ensures r ==> EmailShape(value)
  {
    var i := WordRun(value);
    if !(0 < i < |value| && value[i] == '@') then false
    else
      var rest := value[i + 1..];
      var j := WordRun(rest);
      if !(0 < j < |rest| && rest[j] == '.') then false
      else
        var tld := rest[j + 1..];
        var ok := 2 <= |tld| <= 6 && AllAsciiLetters(tld);
        assert rest == rest[..j] + "." + tld;
        assert value == value[..i] + "@" + rest;
        assert ok ==> EmailParts(value[..i], rest[..j], tld);
        ok
  }

  lemma {:induction false} WordRunStopsAt(w: string, c: char, rest: string)
    requires AllWordChars(w) && !IsWordChar(c)
    ensures WordRun(w + [c] + rest) == |w|
  {
    if w == [] {
      assert (w + [c] + rest)[0] == c;
    } else {
      var s := w + [c] + rest;
      assert s[0] == w[0];
      assert s[1..] == w[1..] + [c] + rest;
      WordRunStopsAt(w[1..], c, rest);
    }
  }

  /** The scan accepts exactly the strings of the pattern's language. */
  lemma MatchesEmailIff(value: string)
    ensures MatchesEmail(value) <==> EmailShape(value)
  {
    if EmailShape(value) {
      var local, domain, tld :| EmailParts(local, domain, tld) &&
        value == local + "@" + domain + "." + tld;
      assert value == local + ['@'] + (domain + "." + tld);
      WordRunStopsAt(local, '@', domain + "." + tld);
      var rest := value[|local| + 1..];
      assert rest == domain + ['.'] + tld;
      WordRunStopsAt(domain, '.', tld);
      assert rest[|domain| + 1..] == tld;
    }
  }

  /** `email(value, name = value)`. */
  function Email(value: string, name: Option<string>): (s: Status)
    ensures s.valid <==> EmailShape(value)
    ensures WellFormed(s)
    ensures !s.valid ==> s.message == Some(name.GetOr(value) + " is not valid")
  {
    MatchesEmailIff(value);
    var ok := MatchesEmail(value);
    Status(ok, if ok then None else Some(name.GetOr(value) + " is not valid"))
  }

  /** A valid address holds exactly one `@` and exactly one `.`. */
  lemma EmailSeparatorsUnique(value: string, name: Option<string>)
    requires Email(value, name).valid
    ensures multiset(value)['@'] == 1
    ensures multiset(value)['.'] == 1
  {
  }

  lemma EmailAcceptsExample()
    ensures Email("a@b.co", None).valid
  {
  }

  lemma EmailRejectsExample()
    ensures Email("not-an-email", None) == Status(false, Some("not-an-email is not valid"))
  {
    assert WordRun("not-an-email") == 3 by {
      assert "not-an-email" == "not" + ['-'] + "an-email";
      WordRunStopsAt("not", '-', "an-email");
    }
    assert "not-an-email"[3] == '-';
    assert !MatchesEmail("not-an-email");
    MatchesEmailIff("not-an-email");
    assert "not-an-email" + " is not valid" == "not-an-email is not valid";
  }

  /** Top-level parts of one and of seven letters are rejected. */
  lemma EmailTopLevelBounds()
    ensures !Email("a@b.c", None).valid
    ensures !Email("a@b.abcdefg", None).valid
  {
  }

  lemma EmailRejectsDoubleAt()
    ensures !Email("a@@b.co", None).valid
  {
  }

  // ---------------------------------------------------------------------
  // validate

  /** What `validate` returns: the first failing rule's own status, or a
      valid status without a message. */
  function Outcome(value: string, rules: seq<Rule>, name: string): Status
  {
    if rules == [] then Status(true, None)
    else
      var result := rules[0](value, Some(name));
      if !result.valid then result else Outcome(value, rules[1..], name)
  }

  /** `validate(value, rules, name)`: the `for ... of` loop with its early return. */
  method Validate(value: string, rules: seq<Rule>, name: string) returns (s: Status)
    ensures s == Outcome(value, rules, name)
    ensures s.valid <==> forall k :: 0 <= k < |rules| ==> rules[k](value, Some(name)).valid
    ensures s.valid ==> s == Status(true, None)
    ensures !s.valid ==> exists k :: 0 <= k < |rules| && s == rules[k](value, Some(name)) &&
                                     (forall i :: 0 <= i < k ==> rules[i](value, Some(name)).valid)
  {
    for i := 0 to |rules|
      invariant forall k :: 0 <= k < i ==> rules[k](value, Some(name)).valid
      invariant Outcome(value, rules, name) == Outcome(value, rules[i..], name)
    {
      var result := rules[i](value, Some(name));
      assert rules[i..][1..] == rules[i + 1..];
      if !result.valid {
        return result;
      }
    }
    return Status(true, None);
  }

  /** When every rule passes, including for the empty list, the outcome is
      valid and carries no message; otherwise it is not valid. */
  lemma {:induction false} OutcomeAllPass(value: string, rules: seq<Rule>, name: string)
    ensures Outcome(value, rules, name).valid <==>
              forall k :: 0 <= k < |rules| ==> rules[k](value, Some(name)).valid
    ensures Outcome(value, rules, name).valid ==> Outcome(value, rules, name) == Status(true, None)
  {
    if rules != [] {
      OutcomeAllPass(value, rules[1..], name);
      assert forall k :: 1 <= k < |rules| ==> rules[k] == rules[1..][k - 1];
    }
  }

  /** The outcome is exactly the status of the first failing rule. */
  lemma {:induction false} OutcomeIsFirstFailure(value: string, rules: seq<Rule>, name: string, k: nat)
    requires k < |rules| && !rules[k](value, Some(name)).valid
    requires forall i :: 0 <= i < k ==> rules[i](value, Some(name)).valid
    ensures Outcome(value, rules, name) == rules[k](value, Some(name))
  {
    if k > 0 {
      assert forall i :: 0 <= i < k - 1 ==> rules[1..][i] == rules[i + 1];
      OutcomeIsFirstFailure(value, rules[1..], name, k - 1);
    }
  }

  /** Rules after a failure are never consulted: running a list followed by
      more rules gives the list's outcome when it fails, and otherwise the
      outcome of the rules that follow. */
  lemma {:induction false} OutcomeOfConcatenation(value: string, first: seq<Rule>, rest: seq<Rule>, name: string)
    ensures Outcome(value, first + rest, name) ==
              if Outcome(value, first, name).valid then Outcome(value, rest, name)
              else Outcome(value, first, name)
  {
    if first == [] {
      assert first + rest == rest;
    } else {
      assert (first + rest)[1..] == first[1..] + rest;
      OutcomeOfConcatenation(value, first[1..], rest, name);
    }
  }

  /** Running well-formed rules yields a well-formed status. */
  lemma {:induction false} OutcomeWellFormed(value: string, rules: seq<Rule>, name: string)
    requires forall k :: 0 <= k < |rules| ==> WellFormedRule(rules[k])
    ensures WellFormed(Outcome(value, rules, name))
  {
    if rules != [] {
      assert WellFormedRule(rules[0]);
      OutcomeWellFormed(value, rules[1..], name);
    }
  }

  /** `validate("", [required, email], name)` reports the `required` failure. */
  lemma RequiredBeforeEmail(name: string)
    ensures Outcome("", [Required, Email], name) == Required("", Some(name))
    ensures Outcome("", [Required, Email], name) == Status(false, Some(name + " is required"))
  {
  }

  // ---------------------------------------------------------------------
  // the `validation` delegate object

  function ValidationEmail(value: string, name: string): (s: Status)
    ensures s == Email(value, Some(name))
    ensures s.valid <==> EmailShape(value)
  {
    Email(value, Some(name))
  }

  function ValidationRequired(value: string, name: string): (s: Status)
    ensures s == Required(value, Some(name))
    ensures s.valid <==> |value| > 0
  {
    Required(value, Some(name))
  }

  // ---------------------------------------------------------------------
  // numbers in messages

  function DigitChar(d: nat): char
    requires d < 10
  {
    "0123456789"[d]
  }

  /** The value of a string of decimal digits, read most significant first. */
  function DecimalValue(s: string): nat
  {
    if s == [] then 0
    else 10 * DecimalValue(s[..|s| - 1]) + (var c := s[|s| - 1]; if '0' <= c <= '9' then c as int - '0' as int else 0)
  }

  /** The decimal form of a natural number, as JavaScript writes one. */
  function NatToString(n: nat): (s: string)
    ensures |s| > 0 && (forall k :: 0 <= k < |s| ==> '0' <= s[k] <= '9')
    ensures |s| == 1 || s[0] != '0'
    ensures DecimalValue(s) == n
  {
    if n < 10 then [DigitChar(n)]
    else
      var s := NatToString(n / 10) + [DigitChar(n % 10)];
      assert s[..|s| - 1] == NatToString(n / 10);
      s
  }

  /** An integer bound in a template literal: a `-` sign, then the digits. */
  function IntToString(i: int): (s: string)
    ensures |s| > 0 && (s[0] == '-' <==> i < 0)
    ensures var digits := if i < 0 then s[1..] else s;
      |digits| > 0 && (forall k :: 0 <= k < |digits| ==> '0' <= digits[k] <= '9') &&
      (|digits| == 1 || digits[0] != '0') &&
      DecimalValue(digits) == if i < 0 then -i else i
  {
    if i < 0 then
      var s := "-" + NatToString(-i);
      assert s[1..] == NatToString(-i);
      s
    else NatToString(i)
  }
}
