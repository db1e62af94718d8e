/** The contact form's e-mail check, `isValidEmail`, and a structural description of
    the strings it accepts. */
module Email {

  /** The class `\s` of a JavaScript regular expression: the ECMAScript WhiteSpace
      code points (tab, vertical tab, form feed, space, no-break space, the byte
      order mark and every other space separator) and the LineTerminator code points. */
  predicate IsSpace(c: char) {
    c == '\t' || c == '\n' || c == '\U{000B}' || c == '\U{000C}' || c == '\r' || c == ' '
    || c == '\U{00A0}' || c == '\U{1680}' || ('\U{2000}' <= c <= '\U{200A}')
    || c == '\U{2028}' || c == '\U{2029}' || c == '\U{202F}' || c == '\U{205F}'
    || c == '\U{3000}' || c == '\U{FEFF}'
  }

  /** A character of the class `[^\s@]`. */
  predicate IsAtomChar(c: char) {
    !IsSpace(c) && c != '@'
  }

  /** The strings matched by `[^\s@]+`. */
  predicate IsAtomRun(s: string) {
    |s| > 0 && forall k | 0 <= k < |s| :: IsAtomChar(s[k])
  }

  /** `s` splits as  run '@' run '.' run  with the '@' at `at` and the '.' at `dot`. */
  predicate SplitsAt(s: string, at: int, dot: int)
    requires 0 <= at < dot < |s|
  {
    s[at] == '@' && s[dot] == '.'
    && IsAtomRun(s[..at]) && IsAtomRun(s[at + 1..dot]) && IsAtomRun(s[dot + 1..])
  }

  /** isValidEmail: the anchored pattern `^[^\s@]+@[^\s@]+\.[^\s@]+$` holds of `s`
      exactly when some choice of the '@' and of the '.' splits `s` into the three
      runs the pattern asks for (the backtracking matcher tries every such choice).
      Each run has at least one character, so an accepted string has at least five,
      and it begins and ends with a character of `[^\s@]`. */
  predicate IsValidEmail(s: string)
    ensures IsValidEmail(s) ==> |s| >= 5 && IsAtomChar(s[0]) && IsAtomChar(s[|s| - 1])
  {
    exists at, dot | 0 <= at < dot < |s| :: SplitsAt(s, at, dot)
  }

  // ---------------------------------------------------------------------------
  // The structural description

  /** Number of occurrences of `c` in `s`. */
  function Occurrences(s: string, c: char): (n: nat)
    ensures n <= |s|
  {
    if s == [] then 0 else (if s[0] == c then 1 else 0) + Occurrences(s[1..], c)
  }

  /** Index of the first `c` in `s`, or `|s|` when there is none. */
  function FirstIndex(s: string, c: char): (i: nat)
    ensures i <= |s|
    ensures forall k | 0 <= k < i :: s[k] != c
    ensures i < |s| ==> s[i] == c
    ensures i == |s| <==> c !in s
  {
    if s == [] then 0
    else if s[0] == c then 0
    else 1 + FirstIndex(s[1..], c)
  }

  predicate NoSpace(s: string) {
    forall k | 0 <= k < |s| :: !IsSpace(s[k])
  }

  /** The text before the first '@'. */
  function LocalPart(s: string): string {
    s[..FirstIndex(s, '@')]
  }

  /** The text after the first '@' (empty when there is no '@'). */
  function Domain(s: string): string {
    var at := FirstIndex(s, '@');
    if at < |s| then s[at + 1..] else ""
  }

  /** `d` has a '.' that is neither its first nor its last character. */
  predicate HasInnerDot(d: string) {
    exists i | 1 <= i <= |d| - 2 :: d[i] == '.'
  }

  /** An address in the sense of the contact form: no white space, exactly one '@',
      something before it, and a '.' strictly inside the part after it. */
  predicate WellFormedAddress(s: string) {
    NoSpace(s) && Occurrences(s, '@') == 1 && |LocalPart(s)| > 0 && HasInnerDot(Domain(s))
  }

  lemma {:induction false} OccurrencesAppend(a: string, b: string, c: char)
    ensures Occurrences(a + b, c) == Occurrences(a, c) + Occurrences(b, c)
  {
    if a != [] {
      assert (a + b)[1..] == a[1..] + b;
      OccurrencesAppend(a[1..], b, c);
    } else {
      assert a + b == b;
    }
  }

  lemma {:induction false} OccurrencesZero(s: string, c: char)
    ensures Occurrences(s, c) == 0 <==> c !in s
  {
    if s != [] {
      OccurrencesZero(s[1..], c);
      assert s == [s[0]] + s[1..];
    }
  }

  /** Every character of an atom run is neither white space nor '@'. */
  lemma AtomRunChars(s: string)
    requires IsAtomRun(s)
    ensures '@' !in s && NoSpace(s)
  {
  }

  /** A split leaves no white space in `s`. */
  lemma SplitNoSpace(s: string, at: int, dot: int)
    requires 0 <= at < dot < |s| && SplitsAt(s, at, dot)
    ensures NoSpace(s)
  {
    var local, mid, top := s[..at], s[at + 1..dot], s[dot + 1..];
    AtomRunChars(local);
    AtomRunChars(mid);
    AtomRunChars(top);
    forall k | 0 <= k < |s| ensures !IsSpace(s[k]) {
      if k < at {
        assert s[k] == local[k];
      } else if at < k < dot {
        assert s[k] == mid[k - at - 1];
      } else if dot < k {
        assert s[k] == top[k - dot - 1];
      }
    }
  }

  /** A split has its '@' as the only one. */
  lemma SplitOneAt(s: string, at: int, dot: int)
    requires 0 <= at < dot < |s| && SplitsAt(s, at, dot)
    ensures Occurrences(s, '@') == 1 && FirstIndex(s, '@') == at
  {
    var local, mid, top := s[..at], s[at + 1..dot], s[dot + 1..];
    AtomRunChars(local);
    AtomRunChars(mid);
    AtomRunChars(top);
    var domain := s[at + 1..];
    assert domain == mid + [s[dot]] + top;
    assert s == local + [s[at]] + domain;
    OccurrencesZero(local, '@');
    OccurrencesZero(mid, '@');
    OccurrencesZero(top, '@');
    OccurrencesAppend(mid, [s[dot]], '@');
    OccurrencesAppend(mid + [s[dot]], top, '@');
    OccurrencesAppend(local, [s[at]], '@');
    OccurrencesAppend(local + [s[at]], domain, '@');
  }

  lemma ValidIsWellFormed(s: string)
    requires IsValidEmail(s)
    ensures WellFormedAddress(s)
  {
    var at, dot :| 0 <= at < dot < |s| && SplitsAt(s, at, dot);
    SplitNoSpace(s, at, dot);
    SplitOneAt(s, at, dot);
    assert Domain(s) == s[at + 1..];
    assert Domain(s)[dot - at - 1] == '.';
  }

  /** The part after the only '@' holds no '@'. */
  lemma DomainHasNoAt(s: string)
    requires Occurrences(s, '@') == 1
    ensures FirstIndex(s, '@') < |s| && '@' !in Domain(s)
  {
    var at := FirstIndex(s, '@');
    OccurrencesZero(s, '@');
    var domain := Domain(s);
    assert s == s[..at] + [s[at]] + domain;
    OccurrencesAppend(s[..at], [s[at]], '@');
    OccurrencesAppend(s[..at] + [s[at]], domain, '@');
    OccurrencesZero(s[..at], '@');
    OccurrencesZero(domain, '@');
  }

  lemma WellFormedIsValid(s: string)
    requires WellFormedAddress(s)
    ensures IsValidEmail(s)
  {
    DomainHasNoAt(s);
    var at := FirstIndex(s, '@');
    var domain := Domain(s);
    var i :| 1 <= i <= |domain| - 2 && domain[i] == '.';
    var dot := at + 1 + i;
    var local, mid, top := s[..at], s[at + 1..dot], s[dot + 1..];
    forall k | 0 <= k < |local| ensures IsAtomChar(local[k]) {
      assert local[k] == s[k];
    }
    forall k | 0 <= k < |mid| ensures IsAtomChar(mid[k]) {
      assert mid[k] == s[at + 1 + k] == domain[k];
    }
    forall k | 0 <= k < |top| ensures IsAtomChar(top[k]) {
      assert top[k] == s[dot + 1 + k] == domain[i + 1 + k];
    }
    assert SplitsAt(s, at, dot);
  }

  /** isValidEmail accepts exactly the well-formed addresses. */
  lemma ValidEmailIffWellFormed(s: string)
    ensures IsValidEmail(s) <==> WellFormedAddress(s)
  {
    if IsValidEmail(s) {
      ValidIsWellFormed(s);
    }
    if WellFormedAddress(s) {
      WellFormedIsValid(s);
    }
  }

  /** The sample address `a@b.co` is accepted. */
  lemma SampleAddressValid()
    ensures IsValidEmail("a@b.co")
  {
    var s := "a@b.co";
    assert IsAtomRun(s[..1]) && IsAtomRun(s[2..3]) && IsAtomRun(s[4..]);
    assert SplitsAt(s, 1, 3);
  }
}
