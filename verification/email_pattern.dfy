/**
 * The email pattern of the login schema,
 *   /^[A-Z0-9._%+-]+@[A-Z0-9.-]+\.[A-Z]{2,}$/i
 * first as a declarative statement (there is a way to split the input into
 * the four parts the pattern names), then as a deterministic automaton that
 * reads the input once, and the proof that the two accept the same strings.
 */
module EmailPattern {
  import opened JsText

  /** The class `[A-Z0-9._%+-]` under the `i` flag. */
  predicate IsLocalUnit(c: CodeUnit) {
    IsAsciiLetter(c) || IsAsciiDigit(c)
    || c == DOT || c == UNDERSCORE || c == PERCENT || c == PLUS || c == HYPHEN
  }

  /** The class `[A-Z0-9.-]` under the `i` flag. */
  predicate IsDomainUnit(c: CodeUnit) {
    IsAsciiLetter(c) || IsAsciiDigit(c) || c == DOT || c == HYPHEN
  }

  predicate AllLocal(s: JsString) { forall k :: 0 <= k < |s| ==> IsLocalUnit(s[k]) }

  predicate AllDomain(s: JsString) { forall k :: 0 <= k < |s| ==> IsDomainUnit(s[k]) }

  predicate AllLetters(s: JsString) { forall k :: 0 <= k < |s| ==> IsAsciiLetter(s[k]) }

  // ---------------------------------------------------------------------
  // Declarative pattern
  // ---------------------------------------------------------------------

  /**
   * `s` is  local `@` domain `.` tld  with the `@` at index `at` and the
   * `.` at index `dot`: a non-empty local part, a non-empty domain run, and at
   * least two letters that reach the end of the input (`$` without the `m`
   * flag is the end of the input only).
   */
  predicate IsEmailSplit(s: JsString, at: int, dot: int) {
    && 0 < at < dot - 1
    && dot + 2 < |s|
    && s[at] == AT_SIGN
    && s[dot] == DOT
    && AllLocal(s[..at])
    && AllDomain(s[at + 1..dot])
    && AllLetters(s[dot + 1..])
  }

  /** The whole input matches the email pattern. */
  ghost predicate MatchesEmailRegex(s: JsString) {
    exists at, dot :: IsEmailSplit(s, at, dot)
  }

  // ---------------------------------------------------------------------
  // Executable recognizer: a deterministic automaton
  // ---------------------------------------------------------------------

  /**
   * Where the automaton is inside the pattern:
   * Start (nothing read), Local (inside the local part), At (just read `@`),
   * Domain (inside the domain run, no usable final `.` yet), Dot (just read a
   * `.` that could be the last one), Tld1/Tld2 (one / at least two letters after
   * that `.`), Fail (no continuation can match).
   */
  datatype State = Start | Local | At | Domain | Dot | Tld1 | Tld2 | Fail

  function Step(q: State, c: CodeUnit): State {
    match q
    case Start => if IsLocalUnit(c) then Local else Fail
    case Local =>
      if IsLocalUnit(c) then Local
      else if c == AT_SIGN then At
      else Fail
    case At => if IsDomainUnit(c) then Domain else Fail
    case Domain | Dot | Tld1 | Tld2 =>
      if c == DOT then Dot
      else if IsAsciiLetter(c) then
        (if q == Dot then Tld1 else if q == Domain then Domain else Tld2)
      else if IsDomainUnit(c) then Domain
      else Fail
    case Fail => Fail
  }

  /** Runs the automaton from `q` over `s`, left to right. */
  function Run(q: State, s: JsString): State
    decreases |s|
  {
    if s == [] then q else Run(Step(q, s[0]), s[1..])
  }

  /** The recognizer: the automaton accepts exactly the strings the pattern matches. */
  function IsEmail(s: JsString): (b: bool)
    ensures b <==> MatchesEmailRegex(s)
  {
    RunFromStart(s);
    AcceptIffMatches(s);
    Run(Start, s) == Tld2
  }

  // ---------------------------------------------------------------------
  // The state reached on a prefix, stated without the automaton
  // ---------------------------------------------------------------------

  /** Length of the longest prefix of `s` made of local-part units. */
  function LocalRun(s: JsString): (n: nat)
    ensures n <= |s|
    ensures forall k :: 0 <= k < n ==> IsLocalUnit(s[k])
    ensures n < |s| ==> !IsLocalUnit(s[n])
  {
    if s == [] || !IsLocalUnit(s[0]) then 0
    else
      var m := LocalRun(s[1..]);
      assert forall k :: 1 <= k < m + 1 ==> s[k] == s[1..][k - 1];
      m + 1
  }

  /** Length of the longest suffix of `s` made of ASCII letters. */
  function TrailingLetters(s: JsString): (n: nat)
    ensures n <= |s|
    ensures forall k :: |s| - n <= k < |s| ==> IsAsciiLetter(s[k])
    ensures n < |s| ==> !IsAsciiLetter(s[|s| - n - 1])
  {
    if s == [] || !IsAsciiLetter(s[|s| - 1]) then 0
    else
      var m := TrailingLetters(s[..|s| - 1]);
      assert forall k :: |s| - 1 - m <= k < |s| - 1 ==> s[k] == s[..|s| - 1][k];
      m + 1
  }

  /** Every unit of `w` from position `lo` on is a domain-part unit. */
  predicate DomainFrom(w: JsString, lo: nat) {
    forall k :: lo <= k < |w| ==> IsDomainUnit(w[k])
  }

  /**
   * The state after the `@` at position `at` of `w` and the domain units
   * after it: `n` letters end the input, and whether a `.` with at least one
   * domain unit before it comes right before them.
   */
  function DomainState(w: JsString, at: nat): State
    requires at < |w|
  {
    if at + 1 == |w| then At
    else
      var n := TrailingLetters(w);
      if at + n + 2 < |w| && w[|w| - n - 1] == DOT then
        (if n == 0 then Dot else if n == 1 then Tld1 else Tld2)
      else Domain
  }

  /** The state the automaton must be in after reading `w` from Start. */
  function Classify(w: JsString): State {
    if w == [] then Start
    else
      var at := LocalRun(w);
      if at == |w| then Local
      else if at == 0 || w[at] != AT_SIGN || !DomainFrom(w, at + 1) then Fail
      else DomainState(w, at)
  }

  lemma LocalRunIs(s: JsString, n: nat)
    requires n <= |s|
    requires forall k :: 0 <= k < n ==> IsLocalUnit(s[k])
    requires n < |s| ==> !IsLocalUnit(s[n])
    ensures LocalRun(s) == n
  {
  }

  lemma TrailingLettersIs(s: JsString, n: nat)
    requires n <= |s|
    requires forall k :: |s| - n <= k < |s| ==> IsAsciiLetter(s[k])
    requires n < |s| ==> !IsAsciiLetter(s[|s| - n - 1])
    ensures TrailingLetters(s) == n
  {
  }

  lemma LocalRunSnoc(w: JsString, c: CodeUnit)
    ensures LocalRun(w + [c]) ==
      if LocalRun(w) == |w| && IsLocalUnit(c) then |w| + 1 else LocalRun(w)
  {
    var n := LocalRun(w);
    var w' := w + [c];
    assert forall k :: 0 <= k < |w| ==> w'[k] == w[k];
    if n == |w| && IsLocalUnit(c) {
      LocalRunIs(w', |w| + 1);
    } else {
      LocalRunIs(w', n);
    }
  }

  lemma TrailingLettersSnoc(w: JsString, c: CodeUnit)
    ensures TrailingLetters(w + [c]) == if IsAsciiLetter(c) then TrailingLetters(w) + 1 else 0
  {
    assert (w + [c])[..|w|] == w;
  }

  lemma DomainFromSnoc(w: JsString, lo: nat, c: CodeUnit)
    requires lo <= |w|
    ensures DomainFrom(w + [c], lo) <==> DomainFrom(w, lo) && IsDomainUnit(c)
  {
    var w' := w + [c];
    assert forall k :: 0 <= k < |w| ==> w'[k] == w[k];
    assert w'[|w|] == c;
  }

  /** One more domain unit moves the domain state exactly as the automaton does. */
  lemma DomainStateStep(w: JsString, at: nat, c: CodeUnit)
    requires at < |w| && w[at] == AT_SIGN
    requires IsDomainUnit(c)
    ensures DomainState(w + [c], at) == Step(DomainState(w, at), c)
  {
    TrailingLettersSnoc(w, c);
    var w' := w + [c];
    var n := TrailingLetters(w);
    assert n <= |w| - at - 1 by {
      assert !IsAsciiLetter(w[at]);
    }
    assert w'[|w|] == c;
    assert w'[|w| - n - 1] == w[|w| - n - 1];
  }

  lemma ClassifyStepFirst(c: CodeUnit)
    ensures Classify([c]) == Step(Start, c)
  {
    LocalRunSnoc([], c);
    assert [] + [c] == [c];
  }

  lemma ClassifyStepLocal(w: JsString, c: CodeUnit)
    requires w != [] && LocalRun(w) == |w|
    ensures Classify(w + [c]) == Step(Local, c)
  {
    LocalRunSnoc(w, c);
    var w' := w + [c];
    assert w'[|w|] == c;
  }

  /** After the `@`, a unit outside the domain alphabet ends every match. */
  lemma StepOutsideDomain(q: State, c: CodeUnit)
    requires q in {At, Domain, Dot, Tld1, Tld2}
    requires !IsDomainUnit(c)
    ensures Step(q, c) == Fail
  {
  }

  lemma ClassifyStepPastLocal(w: JsString, c: CodeUnit)
    requires w != [] && LocalRun(w) < |w|
    ensures Classify(w + [c]) == Step(Classify(w), c)
  {
    LocalRunSnoc(w, c);
    var w' := w + [c];
    var at := LocalRun(w);
    assert LocalRun(w') == at;
    assert w'[at] == w[at];
    DomainFromSnoc(w, at + 1, c);
    if at == 0 || w[at] != AT_SIGN || !DomainFrom(w, at + 1) {
      assert Classify(w) == Fail;
      assert Classify(w') == Fail;
    } else if !IsDomainUnit(c) {
      assert Classify(w') == Fail;
      StepOutsideDomain(DomainState(w, at), c);
    } else {
      assert Classify(w) == DomainState(w, at);
      assert Classify(w') == DomainState(w', at);
      DomainStateStep(w, at, c);
    }
  }

  /** Reading one more unit moves the classified state exactly as `Step` does. */
  lemma ClassifyStep(w: JsString, c: CodeUnit)
    ensures Classify(w + [c]) == Step(Classify(w), c)
  {
    if w == [] {
      assert w + [c] == [c];
      ClassifyStepFirst(c);
    } else if LocalRun(w) == |w| {
      ClassifyStepLocal(w, c);
    } else {
      ClassifyStepPastLocal(w, c);
    }
  }

  /** Running the automaton from the state of `w` over `s` lands in the state of `w + s`. */
  lemma {:induction false} RunClassify(w: JsString, s: JsString)
    ensures Run(Classify(w), s) == Classify(w + s)
    decreases |s|
  {
    if s == [] {
      JsText.ConcatEmpty(w);
    } else {
      ClassifyStep(w, s[0]);
      RunClassify(w + [s[0]], s[1..]);
      JsText.ConcatHead(w, s);
    }
  }

  lemma RunFromStart(s: JsString)
    ensures Run(Start, s) == Classify(s)
  {
    RunClassify([], s);
    assert [] + s == s;
  }

  lemma AcceptedMatches(w: JsString)
    requires Classify(w) == Tld2
    ensures MatchesEmailRegex(w)
  {
    var at := LocalRun(w);
    var n := TrailingLetters(w);
    var dot := |w| - n - 1;
    assert AllLocal(w[..at]) by {
      forall k | 0 <= k < at ensures IsLocalUnit(w[..at][k]) {
        assert w[..at][k] == w[k];
      }
    }
    var domain, tld := w[at + 1..dot], w[dot + 1..];
    assert AllDomain(domain) by {
      forall k | 0 <= k < |domain| ensures IsDomainUnit(domain[k]) {
        assert domain[k] == w[at + 1 + k];
      }
    }
    assert AllLetters(tld) by {
      forall k | 0 <= k < |tld| ensures IsAsciiLetter(tld[k]) {
        assert tld[k] == w[dot + 1 + k];
      }
    }
    assert IsEmailSplit(w, at, dot);
  }

  lemma MatchedAccepted(w: JsString, at: int, dot: int)
    requires IsEmailSplit(w, at, dot)
    ensures Classify(w) == Tld2
  {
    forall k | 0 <= k < at ensures IsLocalUnit(w[k]) {
      assert w[..at][k] == w[k];
    }
    LocalRunIs(w, at);
    var m := |w| - dot - 1;
    forall k | dot < k < |w| ensures IsAsciiLetter(w[k]) {
      assert w[dot + 1..][k - dot - 1] == w[k];
    }
    TrailingLettersIs(w, m);
    forall k | at < k < |w| ensures IsDomainUnit(w[k]) {
      if k < dot {
        assert w[at + 1..dot][k - at - 1] == w[k];
      }
    }
  }

  /** The accepting state is reached exactly on the strings the pattern matches. */
  lemma AcceptIffMatches(w: JsString)
    ensures Classify(w) == Tld2 <==> MatchesEmailRegex(w)
  {
    if Classify(w) == Tld2 {
      AcceptedMatches(w);
    }
    if MatchesEmailRegex(w) {
      var at, dot :| IsEmailSplit(w, at, dot);
      MatchedAccepted(w, at, dot);
    }
  }

  // ---------------------------------------------------------------------
  // What an accepted email looks like
  // ---------------------------------------------------------------------

  /** Index of the last occurrence of `x` in `s`, or -1 when there is none. */
  function LastIndexOf(s: JsString, x: CodeUnit): (r: int)
    ensures -1 <= r < |s|
    ensures 0 <= r ==> s[r] == x
    ensures forall k :: r < k < |s| ==> s[k] != x
  {
    if s == [] then -1
    else if s[|s| - 1] == x then |s| - 1
    else LastIndexOf(s[..|s| - 1], x)
  }

  lemma NoAtSignIn(s: JsString)
    requires AllDomain(s) || AllLocal(s)
    ensures multiset(s)[AT_SIGN] == 0
  {
    forall k | 0 <= k < |s| ensures s[k] != AT_SIGN {
      assert IsDomainUnit(s[k]) || IsLocalUnit(s[k]);
    }
    assert AT_SIGN !in s;
  }

  lemma SplitHasOneAtSign(s: JsString, at: int, dot: int)
    requires IsEmailSplit(s, at, dot)
    ensures multiset(s)[AT_SIGN] == 1
  {
    var tail := s[at + 1..];
    assert AllDomain(tail) by {
      forall k | 0 <= k < |tail| ensures IsDomainUnit(tail[k]) {
        if k < dot - at - 1 {
          assert tail[k] == s[at + 1..dot][k];
        } else if k > dot - at - 1 {
          assert tail[k] == s[dot + 1..][k - (dot - at)];
        }
      }
    }
    NoAtSignIn(s[..at]);
    NoAtSignIn(tail);
    assert s == s[..at] + [AT_SIGN] + tail;
    assert multiset(s) == multiset(s[..at]) + multiset{AT_SIGN} + multiset(tail);
  }

  lemma SplitDotIsLast(s: JsString, at: int, dot: int)
    requires IsEmailSplit(s, at, dot)
    ensures LastIndexOf(s, DOT) == dot
  {
    forall k | dot < k < |s| ensures s[k] != DOT {
      assert s[dot + 1..][k - dot - 1] == s[k];
    }
  }

  /**
   * An accepted email holds exactly one `@`, and what follows its last `.`
   * is at least two ASCII letters.
   */
  lemma EmailShape(s: JsString)
    requires MatchesEmailRegex(s)
    ensures multiset(s)[AT_SIGN] == 1
    ensures 0 <= LastIndexOf(s, DOT) < |s| - 2
    ensures AllLetters(s[LastIndexOf(s, DOT) + 1..])
  {
    var at, dot :| IsEmailSplit(s, at, dot);
    SplitHasOneAtSign(s, at, dot);
    SplitDotIsLast(s, at, dot);
  }

  /** Every unit of an accepted email is ASCII, so nothing outside ASCII folds into a letter. */
  lemma EmailIsAscii(s: JsString)
    requires MatchesEmailRegex(s)
    ensures forall k :: 0 <= k < |s| ==> IsAscii(s[k]) && s[k] != NEWLINE
  {
    var at, dot :| IsEmailSplit(s, at, dot);
    forall k | 0 <= k < |s| ensures IsAscii(s[k]) && s[k] != NEWLINE {
      if k < at {
        assert s[..at][k] == s[k];
      } else if at < k < dot {
        assert s[at + 1..dot][k - at - 1] == s[k];
      } else if dot < k {
        assert s[dot + 1..][k - dot - 1] == s[k];
      }
    }
  }

  lemma AllLocalUpper(s: JsString)
    ensures AllLocal(AsciiUpperCase(s)) <==> AllLocal(s)
  {
    var t := AsciiUpperCase(s);
    if AllLocal(t) {
      forall k | 0 <= k < |s| ensures IsLocalUnit(s[k]) {
        assert IsLocalUnit(t[k]);
      }
    }
  }

  lemma AllDomainUpper(s: JsString)
    ensures AllDomain(AsciiUpperCase(s)) <==> AllDomain(s)
  {
    var t := AsciiUpperCase(s);
    if AllDomain(t) {
      forall k | 0 <= k < |s| ensures IsDomainUnit(s[k]) {
        assert IsDomainUnit(t[k]);
      }
    }
  }

  lemma AllLettersUpper(s: JsString)
    ensures AllLetters(AsciiUpperCase(s)) <==> AllLetters(s)
  {
    var t := AsciiUpperCase(s);
    if AllLetters(t) {
      forall k | 0 <= k < |s| ensures IsAsciiLetter(s[k]) {
        assert IsAsciiLetter(t[k]);
      }
    }
  }

  lemma SplitUpper(s: JsString, at: int, dot: int)
    ensures IsEmailSplit(AsciiUpperCase(s), at, dot) <==> IsEmailSplit(s, at, dot)
  {
    var t := AsciiUpperCase(s);
    if 0 < at < dot - 1 && dot + 2 < |s| {
      assert t[..at] == AsciiUpperCase(s[..at]);
      assert t[at + 1..dot] == AsciiUpperCase(s[at + 1..dot]);
      assert t[dot + 1..] == AsciiUpperCase(s[dot + 1..]);
      AllLocalUpper(s[..at]);
      AllDomainUpper(s[at + 1..dot]);
      AllLettersUpper(s[dot + 1..]);
    }
  }

  /** The `i` flag: changing the case of ASCII letters never changes the verdict. */
  lemma EmailIgnoresAsciiCase(s: JsString)
    ensures MatchesEmailRegex(AsciiUpperCase(s)) <==> MatchesEmailRegex(s)
  {
    var t := AsciiUpperCase(s);
    if MatchesEmailRegex(s) {
      var at, dot :| IsEmailSplit(s, at, dot);
      SplitUpper(s, at, dot);
    }
    if MatchesEmailRegex(t) {
      var at, dot :| IsEmailSplit(t, at, dot);
      SplitUpper(s, at, dot);
    }
  }
}
