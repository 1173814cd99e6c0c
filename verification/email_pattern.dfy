/**
 * The email rule of the login form: the regular expression literal
 * `/^[A-Z0-9._%+-]+@[A-Z0-9.-]+\.[A-Z]{2,}$/i`, given to the form's
 * `pattern` rule, which asks whether it matches the field's value
 * (regular expressions: ECMA-262, section 22.2).
 *
 * `PatternMatches` states what the expression denotes under the semantics
 * of section 22.2.2: without the `m` flag `^` holds only at index 0 and `$`
 * only at the end of the input, so a match covers the whole string; with
 * the `i` flag a character matches a class when some member of the class
 * has the same canonical form (the CharacterSetMatcher abstract operation).
 * `Accepts` is the hand-written recogniser; `AcceptsIffPatternMatches`
 * proves the two agree on every string.
 */
module EmailPattern {
  import opened JsString

  predicate IsAsciiUpper(c: char) { 'A' <= c <= 'Z' }
  predicate IsAsciiLower(c: char) { 'a' <= c <= 'z' }
  predicate IsAsciiLetter(c: char) { IsAsciiUpper(c) || IsAsciiLower(c) }
  predicate IsDigit(c: char) { '0' <= c <= '9' }
  predicate IsAscii(c: char) { c as int < 128 }

  /** The Canonicalize abstract operation of ECMA-262 section 22.2.2,
      without the `u` flag: a lower-case
      ASCII letter becomes its upper-case form. The real operation also
      upper-cases non-ASCII letters, but never maps a non-ASCII character to
      an ASCII one; every character of this pattern is ASCII, so leaving
      non-ASCII characters unchanged decides the same matches. */
  function Canonicalize(c: char): (r: char)
    ensures IsAscii(c) <==> IsAscii(r)
    ensures IsAsciiLetter(c) <==> IsAsciiUpper(r)
    ensures IsAsciiUpper(c) ==> r == c
    ensures IsAsciiLower(c) ==> r as int == c as int - 32
    ensures !IsAsciiLetter(c) ==> r == c
  {
    if IsAsciiLower(c) then (c as int - 32) as char else c
  }

  /** The lower-case form of an upper-case ASCII letter. */
  function ToAsciiLower(c: char): (r: char)
    requires IsAsciiUpper(c)
    ensures IsAsciiLower(r) && Canonicalize(r) == c
  {
    (c as int + 32) as char
  }

  /** One range `lo-hi` of a bracketed class; a single character `x` is
      the range `x-x`. */
  datatype ClassRange = ClassRange(lo: char, hi: char)

  /** `[A-Z0-9._%+-]`: the local part before the `@`. */
  const LocalClass: seq<ClassRange> := [
    ClassRange('A', 'Z'), ClassRange('0', '9'), ClassRange('.', '.'),
    ClassRange('_', '_'), ClassRange('%', '%'), ClassRange('+', '+'),
    ClassRange('-', '-')]

  /** `[A-Z0-9.-]`: the domain between the `@` and the last `.`. */
  const DomainClass: seq<ClassRange> := [
    ClassRange('A', 'Z'), ClassRange('0', '9'), ClassRange('.', '.'),
    ClassRange('-', '-')]

  /** `[A-Z]`: the top-level label after the last `.`. */
  const TldClass: seq<ClassRange> := [ClassRange('A', 'Z')]

  /** `c` is a member of the class as written, ignoring case. */
  predicate InClass(cls: seq<ClassRange>, c: char) {
    exists r :: r in cls && r.lo <= c <= r.hi
  }

  /** CharacterSetMatcher with the `i` flag: some member of the class has
      the canonical form of `c`. */
  ghost predicate ClassMatches(cls: seq<ClassRange>, c: char) {
    exists a :: InClass(cls, a) && Canonicalize(a) == Canonicalize(c)
  }

  /** A pattern character `p` (here `@` and the escaped `.`) matches `c`
      with the `i` flag when both have the same canonical form. */
  predicate CharMatches(p: char, c: char) {
    Canonicalize(p) == Canonicalize(c)
  }

  /** The executable class test: `c` itself, its upper-case form or its
      lower-case form is in the class. */
  predicate ClassAccepts(cls: seq<ClassRange>, c: char) {
    || InClass(cls, c)
    || InClass(cls, Canonicalize(c))
    || (IsAsciiUpper(c) && InClass(cls, ToAsciiLower(c)))
  }

  lemma ClassAcceptsIffClassMatches(cls: seq<ClassRange>, c: char)
    ensures ClassAccepts(cls, c) <==> ClassMatches(cls, c)
  {
    if ClassAccepts(cls, c) {
      if InClass(cls, c) {
        assert InClass(cls, c) && Canonicalize(c) == Canonicalize(c);
      } else if InClass(cls, Canonicalize(c)) {
        var a := Canonicalize(c);
        assert InClass(cls, a) && Canonicalize(a) == Canonicalize(c);
      } else {
        var a := ToAsciiLower(c);
        assert InClass(cls, a) && Canonicalize(a) == Canonicalize(c);
      }
    }
    if ClassMatches(cls, c) {
      var a :| InClass(cls, a) && Canonicalize(a) == Canonicalize(c);
      if IsAsciiLower(a) && IsAsciiUpper(c) {
        assert a == ToAsciiLower(c);
      } else if IsAsciiLower(c) && !IsAsciiLower(a) {
        assert a == Canonicalize(c);
      } else {
        assert a == c;
      }
    }
  }

  /** Every character of `t` passes the class test. */
  predicate AllAccepted(cls: seq<ClassRange>, t: string) {
    forall k :: 0 <= k < |t| ==> ClassAccepts(cls, t[k])
  }

  /** The pattern matches the whole of `s` with its `@` at index `at` and
      its escaped `.` at index `dot`: `[A-Z0-9._%+-]+` covers `s[..at]`,
      `[A-Z0-9.-]+` covers `s[at + 1..dot]` and `[A-Z]{2,}` covers
      `s[dot + 1..]` up to the end, where `$` holds. */
  ghost predicate MatchAt(s: string, at: int, dot: int) {
    && 0 < at && at + 1 < dot && dot + 2 < |s|
    && (forall k :: 0 <= k < at ==> ClassMatches(LocalClass, s[k]))
    && CharMatches('@', s[at])
    && (forall k :: at < k < dot ==> ClassMatches(DomainClass, s[k]))
    && CharMatches('.', s[dot])
    && (forall k :: dot < k < |s| ==> ClassMatches(TldClass, s[k]))
  }

  /** The pattern matches `s`, under the semantics of ECMA-262 section
      22.2.2. `^` without the `m` flag only holds at index 0, so of all the
      start positions a search tries only 0 can succeed, and `$` only holds
      at `|s|`. */
  ghost predicate PatternMatches(s: string) {
    exists at, dot :: MatchAt(s, at, dot)
  }

  /** The index of the last `c` in `t`, or -1. */
  function LastIndexOfChar(t: string, c: char): (r: int)
    ensures -1 <= r < |t|
    ensures r != -1 ==> t[r] == c
    ensures forall k :: r < k < |t| ==> t[k] != c
  {
    if |t| == 0 then -1
    else if t[|t| - 1] == c then |t| - 1
    else LastIndexOfChar(t[..|t| - 1], c)
  }

  /** Recognises the text after the `@`: a non-empty domain, the last `.`,
      and at least two letters. */
  predicate AcceptsDomain(t: string) {
    var dot := LastIndexOfChar(t, '.');
    && 0 < dot && dot + 2 < |t|
    && AllAccepted(DomainClass, t[..dot])
    && AllAccepted(TldClass, t[dot + 1..])
  }

  /** The recogniser: split at the first `@`, check the local part, then
      the domain. Neither class admits `@`, so the first `@` is the only
      place the pattern's `@` can match; the top-level label admits no `.`,
      so the pattern's `.` must match the last one. */
  predicate Accepts(s: string) {
    var at := IndexOf(s, "@");
    && 0 < at
    && AllAccepted(LocalClass, s[..at])
    && AcceptsDomain(s[at + 1..])
  }

  // ---------------------------------------------------------------------
  // The three classes spelled out character by character.

  /** A character of `[A-Z0-9._%+-]` under the `i` flag. */
  predicate IsLocalChar(c: char) {
    IsAsciiLetter(c) || IsDigit(c) || c == '.' || c == '_' || c == '%' || c == '+' || c == '-'
  }

  /** A character of `[A-Z0-9.-]` under the `i` flag. */
  predicate IsDomainChar(c: char) {
    IsAsciiLetter(c) || IsDigit(c) || c == '.' || c == '-'
  }

  lemma LocalClassMembers(c: char)
    ensures ClassMatches(LocalClass, c) <==> IsLocalChar(c)
  {
    ClassAcceptsIffClassMatches(LocalClass, c);
    if IsLocalChar(c) {
      if IsAsciiLetter(c) {
        assert ClassRange('A', 'Z') in LocalClass;
      } else if IsDigit(c) {
        assert ClassRange('0', '9') in LocalClass;
      } else {
        assert ClassRange(c, c) in LocalClass;
      }
    }
  }

  lemma DomainClassMembers(c: char)
    ensures ClassMatches(DomainClass, c) <==> IsDomainChar(c)
  {
    ClassAcceptsIffClassMatches(DomainClass, c);
    if IsDomainChar(c) {
      if IsAsciiLetter(c) {
        assert ClassRange('A', 'Z') in DomainClass;
      } else if IsDigit(c) {
        assert ClassRange('0', '9') in DomainClass;
      } else {
        assert ClassRange(c, c) in DomainClass;
      }
    }
  }

  lemma TldClassMembers(c: char)
    ensures ClassMatches(TldClass, c) <==> IsAsciiLetter(c)
  {
    ClassAcceptsIffClassMatches(TldClass, c);
    if IsAsciiLetter(c) {
      assert ClassRange('A', 'Z') in TldClass;
    }
  }

  /** With the `i` flag the literal `@` and `.` still match only themselves. */
  lemma LiteralMatches(p: char, c: char)
    requires p == '@' || p == '.'
    ensures CharMatches(p, c) <==> c == p
  {
  }

  lemma ClassMembersAgree()
    ensures forall c :: ClassMatches(LocalClass, c) <==> IsLocalChar(c)
    ensures forall c :: ClassMatches(DomainClass, c) <==> IsDomainChar(c)
    ensures forall c :: ClassMatches(TldClass, c) <==> IsAsciiLetter(c)
  {
    forall c ensures ClassMatches(LocalClass, c) <==> IsLocalChar(c) {
      LocalClassMembers(c);
    }
    forall c ensures ClassMatches(DomainClass, c) <==> IsDomainChar(c) {
      DomainClassMembers(c);
    }
    forall c ensures ClassMatches(TldClass, c) <==> IsAsciiLetter(c) {
      TldClassMembers(c);
    }
  }

  lemma AllAcceptedLocal(t: string)
    ensures AllAccepted(LocalClass, t) <==> forall k :: 0 <= k < |t| ==> IsLocalChar(t[k])
  {
  }

  lemma AllAcceptedDomain(t: string)
    ensures AllAccepted(DomainClass, t) <==> forall k :: 0 <= k < |t| ==> IsDomainChar(t[k])
  {
  }

  lemma AllAcceptedTld(t: string)
    ensures AllAccepted(TldClass, t) <==> forall k :: 0 <= k < |t| ==> IsAsciiLetter(t[k])
  {
  }

  /** `MatchAt` with the classes spelled out: `s[at]` is the `@`, `s[dot]`
      the `.`, and every other character belongs to its part's class. */
  ghost predicate ShapeAt(s: string, at: int, dot: int) {
    && 0 < at && at + 1 < dot && dot + 2 < |s|
    && (forall k :: 0 <= k < at ==> IsLocalChar(s[k]))
    && s[at] == '@'
    && (forall k :: at < k < dot ==> IsDomainChar(s[k]))
    && s[dot] == '.'
    && (forall k :: dot < k < |s| ==> IsAsciiLetter(s[k]))
  }

  lemma MatchAtIffShapeAt(s: string, at: int, dot: int)
    ensures MatchAt(s, at, dot) <==> ShapeAt(s, at, dot)
  {
    ClassMembersAgree();
  }

  // ---------------------------------------------------------------------
  // The recogniser decides the pattern.

  lemma OccursAtOneChar(s: string, c: char, i: int)
    requires 0 <= i < |s|
    ensures OccursAt(s, [c], i) <==> s[i] == c
  {
  }

  lemma {:induction false} AcceptsHasShape(s: string)
    requires Accepts(s)
    ensures ShapeAt(s, IndexOf(s, "@"), IndexOf(s, "@") + 1 + LastIndexOfChar(s[IndexOf(s, "@") + 1..], '.'))
  {
    var at := IndexOf(s, "@");
    var t := s[at + 1..];
    var d := LastIndexOfChar(t, '.');
    var dot := at + 1 + d;
    AllAcceptedLocal(s[..at]);
    AllAcceptedDomain(t[..d]);
    AllAcceptedTld(t[d + 1..]);
    OccursAtOneChar(s, '@', at);
    assert forall k :: 0 <= k < at ==> s[k] == s[..at][k];
    assert forall k :: at < k < dot ==> s[k] == t[..d][k - at - 1];
    assert forall k :: dot < k < |s| ==> s[k] == t[d + 1..][k - dot - 1];
  }

  /** No local character is an `@`, so the pattern's `@` is the first. */
  lemma FirstAt(s: string, at: int)
    requires 0 <= at < |s| && s[at] == '@'
    requires forall k :: 0 <= k < at ==> IsLocalChar(s[k])
    ensures IndexOf(s, "@") == at
  {
    OccursAtOneChar(s, '@', at);
    forall j | 0 <= j < at
      ensures !OccursAt(s, "@", j)
    {
      OccursAtOneChar(s, '@', j);
    }
  }

  /** No letter is a `.`, so the pattern's `.` is the last. */
  lemma LastDot(t: string, p: int)
    requires 0 <= p < |t| && t[p] == '.'
    requires forall k :: p < k < |t| ==> IsAsciiLetter(t[k])
    ensures LastIndexOfChar(t, '.') == p
  {
  }

  lemma {:induction false} ShapeIsAccepted(s: string, at: int, dot: int)
    requires ShapeAt(s, at, dot)
    ensures Accepts(s)
  {
    FirstAt(s, at);
    var t := s[at + 1..];
    var d := dot - at - 1;
    LastDot(t, d);
    var dom := t[..d];
    var tld := t[d + 1..];
    assert forall k :: 0 <= k < |dom| ==> dom[k] == s[at + 1 + k];
    assert forall k :: 0 <= k < |tld| ==> tld[k] == s[dot + 1 + k];
    AllAcceptedLocal(s[..at]);
    AllAcceptedDomain(dom);
    AllAcceptedTld(tld);
  }

  /** `Accepts(s)` holds exactly when the pattern matches `s`. */
  lemma AcceptsIffPatternMatches(s: string)
    ensures Accepts(s) <==> PatternMatches(s)
  {
    if Accepts(s) {
      AcceptsHasShape(s);
      var at := IndexOf(s, "@");
      var dot := at + 1 + LastIndexOfChar(s[at + 1..], '.');
      MatchAtIffShapeAt(s, at, dot);
    }
    if PatternMatches(s) {
      var at, dot :| MatchAt(s, at, dot);
      MatchAtIffShapeAt(s, at, dot);
      ShapeIsAccepted(s, at, dot);
    }
  }

  // ---------------------------------------------------------------------
  // What every accepted address looks like.

  /** An address is accepted exactly when it splits into a non-empty local
      part of `[A-Za-z0-9._%+-]`, an `@`, a non-empty domain of
      `[A-Za-z0-9.-]`, a `.`, and two or more ASCII letters up to the end. */
  lemma AcceptedIffShape(s: string)
    ensures Accepts(s) <==> exists at, dot :: ShapeAt(s, at, dot)
  {
    if Accepts(s) {
      AcceptsHasShape(s);
    }
    if exists at, dot :: ShapeAt(s, at, dot) {
      var at, dot :| ShapeAt(s, at, dot);
      ShapeIsAccepted(s, at, dot);
    }
  }

  /** An accepted address has exactly one `@`, preceded by a non-empty
      local part of letters, digits and `._%+-`. */
  lemma AcceptedHasOneAt(s: string)
    requires Accepts(s)
    ensures exists at ::
      && 0 < at < |s| && s[at] == '@'
      && (forall k :: 0 <= k < |s| && s[k] == '@' ==> k == at)
      && (forall k :: 0 <= k < at ==> IsLocalChar(s[k]))
  {
    AcceptsHasShape(s);
    var at := IndexOf(s, "@");
    var dot := at + 1 + LastIndexOfChar(s[at + 1..], '.');
    assert ShapeAt(s, at, dot);
  }

  /** The last character of an accepted address is an ASCII letter. */
  lemma AcceptedEndsInLetter(s: string)
    requires Accepts(s)
    ensures |s| > 0 && IsAsciiLetter(s[|s| - 1])
  {
  }

  /** `$` without the `m` flag does not match before a line terminator:
      appending a newline, or any character that is not a letter, to any
      string gives a string the pattern rejects. */
  lemma TrailingNonLetterRejected(s: string, c: char)
    requires !IsAsciiLetter(c)
    ensures !Accepts(s + [c])
  {
  }

  /** Every character of an accepted address is ASCII: the `i` flag folds
      ASCII letters only. */
  lemma AcceptedIsAscii(s: string)
    requires Accepts(s)
    ensures forall k :: 0 <= k < |s| ==> IsAscii(s[k])
  {
  }

  /** `s` with every ASCII letter upper-cased. */
  function UpperAscii(s: string): (u: string)
    ensures |u| == |s|
    ensures forall k :: 0 <= k < |s| ==> u[k] == Canonicalize(s[k])
  {
    seq(|s|, k requires 0 <= k < |s| => Canonicalize(s[k]))
  }

  lemma ShapeIgnoresCase(s: string, at: int, dot: int)
    ensures ShapeAt(s, at, dot) <==> ShapeAt(UpperAscii(s), at, dot)
  {
  }

  /** Acceptance ignores the case of ASCII letters. */
  lemma AcceptsIgnoresCase(s: string)
    ensures Accepts(s) <==> Accepts(UpperAscii(s))
  {
    var u := UpperAscii(s);
    AcceptedIffShape(s);
    AcceptedIffShape(u);
    if Accepts(s) {
      var at, dot :| ShapeAt(s, at, dot);
      ShapeIgnoresCase(s, at, dot);
    }
    if Accepts(u) {
      var at, dot :| ShapeAt(u, at, dot);
      ShapeIgnoresCase(s, at, dot);
    }
  }
}
