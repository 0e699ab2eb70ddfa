/**
 * The phone pattern of the login schema,
 *   /^\+?[1-9]\d{1,14}$/
 * as a declarative statement (how the input splits into the optional `+`,
 * the leading digit and the remaining digits), as a deterministic automaton,
 * and the proof that the two accept the same strings.
 */
module PhonePattern {
  import opened JsText

  /** Leading digit plus `\d{1,14}`: at most fifteen digits in all. */
  const MAX_DIGITS: nat := 15

  predicate AllDigits(s: JsString) { forall k :: 0 <= k < |s| ==> IsAsciiDigit(s[k]) }

  // ---------------------------------------------------------------------
  // Declarative pattern
  // ---------------------------------------------------------------------

  /**
   * `\+?` consumes the first `k` units of `s` (none, or one `+`), then
   * `[1-9]` matches `s[k]` and `\d{1,14}` the rest up to the end of the input.
   */
  predicate IsPhoneSplit(s: JsString, k: int) {
    && 0 <= k < |s|
    && (k == 0 || (k == 1 && s[0] == PLUS))
    && IsNonZeroDigit(s[k])
    && 1 <= |s| - k - 1 <= 14
    && AllDigits(s[k + 1..])
  }

  /** The whole input matches the phone pattern. */
  ghost predicate MatchesPhoneRegex(s: JsString) {
    exists k :: IsPhoneSplit(s, k)
  }

  // ---------------------------------------------------------------------
  // Executable recognizer: a deterministic automaton
  // ---------------------------------------------------------------------

  /** Start (nothing read), Plus (read the `+`), Digits(n) (read n digits), Fail. */
  datatype State = Start | Plus | Digits(count: nat) | Fail

  function Step(q: State, c: CodeUnit): State {
    match q
    case Start =>
      if c == PLUS then Plus
      else if IsNonZeroDigit(c) then Digits(1)
      else Fail
    case Plus => if IsNonZeroDigit(c) then Digits(1) else Fail
    case Digits(n) => if IsAsciiDigit(c) && n < MAX_DIGITS then Digits(n + 1) else Fail
    case Fail => Fail
  }

  predicate Accepting(q: State) { q.Digits? && q.count >= 2 }

  function Run(q: State, s: JsString): State
    decreases |s|
  {
    if s == [] then q else Run(Step(q, s[0]), s[1..])
  }

  /** The recognizer: the automaton accepts exactly the strings the pattern matches. */
  function IsPhone(s: JsString): (b: bool)
    ensures b <==> MatchesPhoneRegex(s)
  {
    RunFromStart(s);
    AcceptIffMatches(s);
    Accepting(Run(Start, s))
  }

  // ---------------------------------------------------------------------
  // The state reached on a prefix, stated without the automaton
  // ---------------------------------------------------------------------

  function PlusLength(w: JsString): nat {
    if w != [] && w[0] == PLUS then 1 else 0
  }

  function Classify(w: JsString): State {
    if w == [] then Start
    else if w == [PLUS] then Plus
    else
      var k := PlusLength(w);
      if IsNonZeroDigit(w[k]) && AllDigits(w[k + 1..]) && |w| - k <= MAX_DIGITS
      then Digits(|w| - k)
      else Fail
  }

  lemma ClassifyStepLonger(w: JsString, c: CodeUnit)
    requires w != [] && w != [PLUS]
    ensures Classify(w + [c]) == Step(Classify(w), c)
  {
    var w' := w + [c];
    var k := PlusLength(w);
    assert w'[0] == w[0] && w'[k] == w[k];
    assert w' != [PLUS];
    var rest := w[k + 1..];
    assert w'[k + 1..] == rest + [c];
    if !AllDigits(rest) {
      var j :| 0 <= j < |rest| && !IsAsciiDigit(rest[j]);
      assert (rest + [c])[j] == rest[j];
    } else if IsAsciiDigit(c) {
      assert AllDigits(rest + [c]);
    } else {
      assert (rest + [c])[|rest|] == c;
    }
  }

  /** Reading one more unit moves the classified state exactly as `Step` does. */
  lemma ClassifyStep(w: JsString, c: CodeUnit)
    ensures Classify(w + [c]) == Step(Classify(w), c)
  {
    if w == [] {
      assert w + [c] == [c];
      assert [c][1..] == [];
    } else if w == [PLUS] {
      assert w + [c] == [PLUS, c];
      assert [PLUS, c][2..] == [];
    } else {
      ClassifyStepLonger(w, c);
    }
  }

  lemma {:induction false} RunClassify(w: JsString, s: JsString)
    ensures Run(Classify(w), s) == Classify(w + s)
    decreases |s|
  {
    if s == [] {
      JsText.ConcatEmpty(w);
    } else {
      ClassifyStep(w, s[0]);
      RunClassify(w + [s[0]], s[1..]);
      JsText.ConcatHead(w, s);
    }
  }

  lemma RunFromStart(s: JsString)
    ensures Run(Start, s) == Classify(s)
  {
    RunClassify([], s);
    assert [] + s == s;
  }

  /** The automaton accepts exactly on the strings the pattern matches. */
  lemma AcceptIffMatches(w: JsString)
    ensures Accepting(Classify(w)) <==> MatchesPhoneRegex(w)
  {
    if Accepting(Classify(w)) {
      assert IsPhoneSplit(w, PlusLength(w));
    }
    if MatchesPhoneRegex(w) {
      var k :| IsPhoneSplit(w, k);
      assert PlusLength(w) == k;
    }
  }

  // ---------------------------------------------------------------------
  // What an accepted phone number looks like
  // ---------------------------------------------------------------------

  /**
   * An accepted phone number is an optional leading `+` followed by two to
   * fifteen ASCII digits of which the first is not `0`; there is no `+`
   * anywhere else.
   */
  lemma PhoneShape(s: JsString)
    requires MatchesPhoneRegex(s)
    ensures s[0] == PLUS || IsNonZeroDigit(s[0])
    ensures forall j :: 0 < j < |s| ==> IsAsciiDigit(s[j])
    ensures var digits := s[PlusLength(s)..];
      2 <= |digits| <= MAX_DIGITS && IsNonZeroDigit(digits[0]) && AllDigits(digits)
  {
    var k :| IsPhoneSplit(s, k);
    assert PlusLength(s) == k;
    forall j | 0 < j < |s| ensures IsAsciiDigit(s[j]) {
      if j > k {
        assert s[k + 1..][j - k - 1] == s[j];
      }
    }
  }

  /** Every unit of an accepted phone number is ASCII and none is a line break. */
  lemma PhoneIsAscii(s: JsString)
    requires MatchesPhoneRegex(s)
    ensures forall j :: 0 <= j < |s| ==> IsAscii(s[j]) && s[j] != NEWLINE
  {
    PhoneShape(s);
  }
}
