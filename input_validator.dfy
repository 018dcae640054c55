/**
 * Input validation and sanitisation: the whole-string regular expressions for identifiers,
 * free text, e-mail addresses and phone numbers, and the HTML-escaping `sanitize`.
 * Java's `null` is `None` wherever the validators accept it.
 */
module InputValidator {
  import opened Wrappers
  import opened Text

  // ---------------------------------------------------------------- character classes

  /** `[A-Za-z0-9_-]` */
  predicate IdChar(c: char) { IsLetterOrDigit(c) || c == '_' || c == '-' }

  /** `[A-Za-z0-9\s.,!?'"\-]` */
  predicate TextChar(c: char)
  {
    IsLetterOrDigit(c) || IsRegexSpace(c) || c in ".,!?'\"-"
  }

  /** `[A-Za-z0-9+_.-]`, the local part of an e-mail address. */
  predicate LocalChar(c: char) { IsLetterOrDigit(c) || c in "+_.-" }

  /** `[A-Za-z0-9.-]`, the domain of an e-mail address. */
  predicate DomainChar(c: char) { IsLetterOrDigit(c) || c in ".-" }

  /** `[0-9+\-\s()]` */
  predicate PhoneChar(c: char) { IsDigit(c) || IsRegexSpace(c) || c in "+-()" }

  /** Java's `\p{Cntrl}`: U+0000 to U+001F and U+007F. */
  predicate IsControl(c: char) { c < ' ' || c == '\U{007F}' }

  // ---------------------------------------------------------------- whole-string patterns

  /** `^[A-Za-z0-9_-]{1,20}$` */
  predicate MatchesId(s: string)
  {
    1 <= |s| <= 20 && forall i :: 0 <= i < |s| ==> IdChar(s[i])
  }

  /** `^[A-Za-z0-9\s.,!?'"\-]{1,200}$` */
  predicate MatchesText(s: string)
  {
    1 <= |s| <= 200 && forall i :: 0 <= i < |s| ==> TextChar(s[i])
  }

  /** `^[0-9+\-\s()]{7,20}$` */
  predicate MatchesPhone(s: string)
  {
    7 <= |s| <= 20 && forall i :: 0 <= i < |s| ==> PhoneChar(s[i])
  }

  predicate AllOf(s: string, p: char -> bool)
  {
    forall i :: 0 <= i < |s| ==> p(s[i])
  }

  /**
   * `^[A-Za-z0-9+_.-]+@[A-Za-z0-9.-]+\.[A-Za-z]{2,}$`: a non-empty local part, `@` at `at`,
   * a non-empty domain label run, the `.` at `dot`, and at least two letters after it.
   */
  predicate EmailAt(s: string, at: int, dot: int)
  {
    && 0 < at && at + 1 < dot < |s| - 2
    && s[at] == '@' && s[dot] == '.'
    && AllOf(s[..at], LocalChar)
    && AllOf(s[at + 1..dot], DomainChar)
    && AllOf(s[dot + 1..], IsLetter)
  }

  predicate MatchesEmail(s: string)
  {
    exists at, dot | 0 <= at < dot < |s| :: EmailAt(s, at, dot)
  }

  // ---------------------------------------------------------------- validators

  /** `isValidId`: non-null and matching the identifier pattern. */
  predicate IsValidId(id: Option<string>)
  {
    id.Some? && MatchesId(id.value)
  }

  /** `isValidString`: non-null, not blank, and matching the free-text pattern. */
  predicate IsValidString(input: Option<string>)
  {
    input.Some? && !IsBlank(input.value) && MatchesText(input.value)
  }

  predicate IsValidEmail(email: Option<string>)
  {
    email.Some? && MatchesEmail(email.value)
  }

  predicate IsValidPhone(phone: Option<string>)
  {
    phone.Some? && MatchesPhone(phone.value)
  }

  predicate IsValidPositiveInt(value: int32) { value > 0 }

  predicate IsValidLength(input: Option<string>, minLength: int32, maxLength: int32)
  {
    input.Some? && minLength as int <= |input.value| <= maxLength as int
  }

  /** `isAlphanumeric`: `^[A-Za-z0-9]+$` */
  predicate IsAlphanumeric(input: Option<string>)
  {
    input.Some? && |input.value| >= 1 && AllOf(input.value, IsLetterOrDigit)
  }

  // ---------------------------------------------------------------- sanitisation

  /** `replaceAll("[\\p{Cntrl}]", "")` */
  function RemoveControls(s: string): (r: string)
    ensures forall i :: 0 <= i < |r| ==> !IsControl(r[i])
    ensures |r| <= |s|
  {
    if s == [] then [] else (if IsControl(s[0]) then [] else [s[0]]) + RemoveControls(s[1..])
  }

  /** `s.replace(c, rep)` for a one-character target: every occurrence is replaced, left to right. */
  function ReplaceChar(s: string, c: char, rep: string): (r: string)
  {
    if s == [] then [] else (if s[0] == c then rep else [s[0]]) + ReplaceChar(s[1..], c, rep)
  }

  /** `sanitize` as written: trim, strip control characters, then five replacements in turn. */
  function Sanitize(input: Option<string>): string
  {
    match input
    case None => ""
    case Some(s) =>
      var t := RemoveControls(Trim(s));
      ReplaceChar(ReplaceChar(ReplaceChar(ReplaceChar(ReplaceChar(t,
        '<', "&lt;"), '>', "&gt;"), '"', "&quot;"), '\'', "&#x27;"), '/', "&#x2F;")
  }

  /** The HTML entity each special character becomes; every other character stands for itself. */
  function Escape(c: char): string
  {
    if c == '<' then "&lt;"
    else if c == '>' then "&gt;"
    else if c == '"' then "&quot;"
    else if c == '\'' then "&#x27;"
    else if c == '/' then "&#x2F;"
    else [c]
  }

  /** Every character of `s` escaped on its own: the reference definition of the replacement chain. */
  function EscapeAll(s: string): string
  {
    if s == [] then [] else Escape(s[0]) + EscapeAll(s[1..])
  }

  predicate IsSpecial(c: char) { c in "<>\"'/" }

  /** Characters in the replacement chain's input that the steps so far have already handled. */
  function EscapeUpTo(c: char, k: nat): string
  {
    if k >= 1 && c == '<' then "&lt;"
    else if k >= 2 && c == '>' then "&gt;"
    else if k >= 3 && c == '"' then "&quot;"
    else if k >= 4 && c == '\'' then "&#x27;"
    else if k >= 5 && c == '/' then "&#x2F;"
    else [c]
  }

  function EscapeAllUpTo(s: string, k: nat): string
  {
    if s == [] then [] else EscapeUpTo(s[0], k) + EscapeAllUpTo(s[1..], k)
  }

  function Target(k: nat): char
    requires 1 <= k <= 5
  {
    if k == 1 then '<' else if k == 2 then '>' else if k == 3 then '"' else if k == 4 then '\'' else '/'
  }

  function Entity(k: nat): string
    requires 1 <= k <= 5
  {
    if k == 1 then "&lt;" else if k == 2 then "&gt;" else if k == 3 then "&quot;" else if k == 4 then "&#x27;" else "&#x2F;"
  }

  lemma {:induction false} ReplaceConcat(a: string, b: string, c: char, rep: string)
    ensures ReplaceChar(a + b, c, rep) == ReplaceChar(a, c, rep) + ReplaceChar(b, c, rep)
  {
    if a == [] {
      assert a + b == b;
    } else {
      ReplaceConcat(a[1..], b, c, rep);
      assert (a + b)[1..] == a[1..] + b;
    }
  }

  lemma {:induction false} ReplaceOutsideTarget(s: string, c: char, rep: string)
    requires c !in s
    ensures ReplaceChar(s, c, rep) == s
  {
    if s != [] {
      ReplaceOutsideTarget(s[1..], c, rep);
      assert [s[0]] + s[1..] == s;
    }
  }

  /** Step `k` of the chain turns the text escaped up to step `k - 1` into the text escaped up to step `k`. */
  lemma {:induction false} ReplaceStep(s: string, k: nat)
    requires 1 <= k <= 5
    ensures ReplaceChar(EscapeAllUpTo(s, k - 1), Target(k), Entity(k)) == EscapeAllUpTo(s, k)
  {
    if s != [] {
      var h := EscapeUpTo(s[0], k - 1);
      ReplaceConcat(h, EscapeAllUpTo(s[1..], k - 1), Target(k), Entity(k));
      ReplaceStep(s[1..], k);
      if s[0] == Target(k) {
        assert h == [s[0]];
      } else {
        assert Target(k) !in h;
        ReplaceOutsideTarget(h, Target(k), Entity(k));
      }
    }
  }

  lemma {:induction false} EscapeAllUpToNone(s: string)
    ensures EscapeAllUpTo(s, 0) == s
  {
    if s != [] {
      EscapeAllUpToNone(s[1..]);
      assert [s[0]] + s[1..] == s;
    }
  }

  lemma {:induction false} EscapeAllUpToAll(s: string)
    ensures EscapeAllUpTo(s, 5) == EscapeAll(s)
  {
    if s != [] {
      EscapeAllUpToAll(s[1..]);
    }
  }

  /**
   * The five successive replacements never undo one another: `sanitize` escapes each
   * character of the trimmed, control-free text on its own.
   */
  lemma {:induction false} SanitizeEscapes(s: string)
    ensures Sanitize(Some(s)) == EscapeAll(RemoveControls(Trim(s)))
  {
    var t := RemoveControls(Trim(s));
    EscapeAllUpToNone(t);
    ReplaceStep(t, 1);
    var e1 := ReplaceChar(t, '<', "&lt;");
    assert e1 == EscapeAllUpTo(t, 1);
    ReplaceStep(t, 2);
    var e2 := ReplaceChar(e1, '>', "&gt;");
    assert e2 == EscapeAllUpTo(t, 2);
    ReplaceStep(t, 3);
    var e3 := ReplaceChar(e2, '"', "&quot;");
    assert e3 == EscapeAllUpTo(t, 3);
    ReplaceStep(t, 4);
    var e4 := ReplaceChar(e3, '\'', "&#x27;");
    assert e4 == EscapeAllUpTo(t, 4);
    ReplaceStep(t, 5);
    assert ReplaceChar(e4, '/', "&#x2F;") == EscapeAllUpTo(t, 5);
    EscapeAllUpToAll(t);
  }

  lemma {:induction false} EscapeAllSafe(s: string)
    requires forall i :: 0 <= i < |s| ==> !IsControl(s[i])
    ensures forall i :: 0 <= i < |EscapeAll(s)| ==> !IsControl(EscapeAll(s)[i]) && !IsSpecial(EscapeAll(s)[i])
  {
    if s != [] {
      EscapeAllSafe(s[1..]);
      var e := Escape(s[0]);
      assert forall i :: 0 <= i < |e| ==> !IsControl(e[i]) && !IsSpecial(e[i]);
    }
  }

  /** The result of `sanitize` holds no control character and none of `< > " ' /`. */
  lemma {:induction false} SanitizeSafe(input: Option<string>)
    ensures forall i :: 0 <= i < |Sanitize(input)| ==> !IsControl(Sanitize(input)[i]) && !IsSpecial(Sanitize(input)[i])
  {
    if input.Some? {
      SanitizeEscapes(input.value);
      EscapeAllSafe(RemoveControls(Trim(input.value)));
    }
  }

  lemma {:induction false} EscapeAllIdentity(s: string)
    requires forall i :: 0 <= i < |s| ==> !IsSpecial(s[i])
    ensures EscapeAll(s) == s
  {
    if s != [] {
      EscapeAllIdentity(s[1..]);
      assert [s[0]] + s[1..] == s;
    }
  }

  lemma {:induction false} RemoveControlsIdentity(s: string)
    requires forall i :: 0 <= i < |s| ==> !IsControl(s[i])
    ensures RemoveControls(s) == s
  {
    if s != [] {
      RemoveControlsIdentity(s[1..]);
      assert [s[0]] + s[1..] == s;
    }
  }

  /** Text that is already trimmed, control-free and free of special characters passes unchanged. */
  lemma {:induction false} SanitizeIdentity(s: string)
    requires Trim(s) == s
    requires forall i :: 0 <= i < |s| ==> !IsControl(s[i]) && !IsSpecial(s[i])
    ensures Sanitize(Some(s)) == s
  {
    SanitizeEscapes(s);
    RemoveControlsIdentity(s);
    EscapeAllIdentity(s);
  }

  // ---------------------------------------------------------------- validate and sanitise

  datatype ValidationError = CannotBeEmpty(field: string) | InvalidCharacters(field: string)

  /**
   * `validateAndSanitize`: a blank input is refused, and so is one that sanitises to nothing;
   * otherwise the sanitised text.
   */
  function ValidateAndSanitize(input: Option<string>, fieldName: string): (r: Result<string, ValidationError>)
    ensures (input.None? || IsBlank(input.value)) <==> r == Failure(CannotBeEmpty(fieldName))
    ensures r.Success? <==> input.Some? && !IsBlank(input.value) && Sanitize(input) != []
    ensures r.Success? ==> r.value == Sanitize(input)
  {
    if input.None? || IsBlank(input.value) then Failure(CannotBeEmpty(fieldName))
    else
      var sanitized := Sanitize(input);
      if sanitized == [] then Failure(InvalidCharacters(fieldName)) else Success(sanitized)
  }

  /** A non-blank input can still be refused: one made only of control characters sanitises to nothing. */
  lemma {:induction false} ControlOnlyInput(s: string, fieldName: string)
    requires !IsBlank(s) && forall i :: 0 <= i < |s| ==> IsControl(s[i])
    ensures ValidateAndSanitize(Some(s), fieldName) == Failure(InvalidCharacters(fieldName))
  {
    TrimKeepsControls(s);
    RemoveAllControls(Trim(s));
    assert Sanitize(Some(s)) == [];
  }

  /** What `trim` keeps of a string made only of control characters is still made only of them. */
  lemma {:induction false} TrimKeepsControls(s: string)
    requires forall i :: 0 <= i < |s| ==> IsControl(s[i])
    ensures forall i :: 0 <= i < |Trim(s)| ==> IsControl(Trim(s)[i])
  {
    var u := TrimStart(s);
    assert forall i :: 0 <= i < |u| ==> IsControl(u[i]) by {
      forall i | 0 <= i < |u| ensures IsControl(u[i]) {
        assert u[i] == s[|s| - |u| + i];
      }
    }
    var t := TrimEnd(u);
    forall i | 0 <= i < |t| ensures IsControl(t[i]) {
      assert t[i] == u[i];
    }
  }

  /** Removing control characters from a string made only of them leaves nothing. */
  lemma {:induction false} RemoveAllControls(s: string)
    requires forall i :: 0 <= i < |s| ==> IsControl(s[i])
    ensures RemoveControls(s) == []
  {
    if s != [] {
      RemoveAllControls(s[1..]);
    }
  }

  /** A valid identifier is never blank and needs no sanitising. */
  lemma {:induction false} ValidIdIsClean(id: string)
    requires IsValidId(Some(id))
    ensures !IsBlank(id) && Sanitize(Some(id)) == id
  {
    assert !IsTrimmed(id[0]);
    assert Trim(id) != [];
    assert TrimStart(id) == id;
    assert TrimEnd(id) == id;
    SanitizeIdentity(id);
  }

  /**
   * The patterns fix the lengths `isValidLength` would check, `null` is never valid, and an
   * alphanumeric string of at most twenty characters is also a valid identifier.
   */
  lemma {:induction false} PatternBounds(s: string)
    ensures IsValidId(Some(s)) ==> IsValidLength(Some(s), 1, 20)
    ensures IsValidString(Some(s)) ==> IsValidLength(Some(s), 1, 200)
    ensures IsValidPhone(Some(s)) ==> IsValidLength(Some(s), 7, 20)
    ensures IsAlphanumeric(Some(s)) && |s| <= 20 ==> IsValidId(Some(s))
    ensures !IsValidId(None) && !IsValidString(None) && !IsValidEmail(None) && !IsValidPhone(None)
    ensures !IsAlphanumeric(None) && !IsValidLength(None, 0, 0)
  {
  }

  /** Every e-mail address the pattern accepts has exactly one `@`. */
  lemma {:induction false} EmailHasOneAt(s: string, at: int, dot: int)
    requires EmailAt(s, at, dot)
    ensures forall i :: 0 <= i < |s| && s[i] == '@' ==> i == at
    ensures 0 < at && at + 1 < dot && |s| - dot > 2
  {
    forall i | 0 <= i < |s| && i != at ensures s[i] != '@' {
      if i < at {
        assert s[..at][i] == s[i];
      } else if i < dot {
        assert s[at + 1..dot][i - at - 1] == s[i];
      } else if i > dot {
        assert s[dot + 1..][i - dot - 1] == s[i];
      }
    }
  }

  /**
   * The pattern needs a local part, a domain run before the last dot and two letters after it:
   * `a@b.com` matches, and `@b.com`, `a@.com` and `a@b.c` do not.
   */
  lemma {:induction false} EmailShapes()
    ensures MatchesEmail("a@b.com")
    ensures !MatchesEmail("@b.com") && !MatchesEmail("a@.com") && !MatchesEmail("a@b.c")
  {
    assert EmailAt("a@b.com", 1, 3);
    forall at, dot | 0 <= at < dot < 6 ensures !EmailAt("@b.com", at, dot) {
      if EmailAt("@b.com", at, dot) {
        EmailHasOneAt("@b.com", at, dot);
      }
    }
    forall at, dot | 0 <= at < dot < 6 ensures !EmailAt("a@.com", at, dot) {
      if EmailAt("a@.com", at, dot) {
        EmailHasOneAt("a@.com", at, dot);
      }
    }
  }
}
