/**
 * The password scorer of the password-strength sample: `evaluatePasswordStrength`
 * turns a password into a score and a feedback message, and
 * `getStrengthBarColor` picks the colour of the strength bar from the score.
 *
 * The feedback hints are kept as values of `Hint` while they are collected;
 * `HintText` gives the sentence each one stands for.
 */
module PasswordStrength {
  import opened JsStrings

  /** The four character classes the scorer tests for. */
  datatype CharClass = Lowercase | Uppercase | Digit | Symbol

  const Classes: seq<CharClass> := [Lowercase, Uppercase, Digit, Symbol]

  /** The characters of `[!@#$%^&*()_+\-=\[\]{};':"\|,.<>/?]`. */
  const SymbolChars: string := "!@#$%^&*()_+-=[]{};':\"|,.<>/?"

  predicate InClass(c: char, k: CharClass) {
    match k
    case Lowercase => 'a' <= c <= 'z'
    case Uppercase => 'A' <= c <= 'Z'
    case Digit => '0' <= c <= '9'
    case Symbol => c in SymbolChars
  }

  /** `/[…]/.test(pwd)` for the class. */
  predicate Has(pwd: string, k: CharClass) {
    exists i :: 0 <= i < |pwd| && InClass(pwd[i], k)
  }

  /** The feedback hints, in the order they can be pushed. */
  datatype Hint = TooShort | MakeLonger | Add(k: CharClass) | AvoidCommon

  function HintText(h: Hint): string {
    match h
    case TooShort => "Password is too short (min 6 characters)."
    case MakeLonger => "Make it longer for better security."
    case Add(Lowercase) => "Add lowercase letters."
    case Add(Uppercase) => "Add uppercase letters."
    case Add(Digit) => "Add numbers."
    case Add(Symbol) => "Add symbols."
    case AvoidCommon => "Avoid common words or patterns."
  }

  function HintTexts(hints: seq<Hint>): (texts: seq<string>)
    ensures |texts| == |hints|
  {
    seq(|hints|, i requires 0 <= i < |hints| => HintText(hints[i]))
  }

  const CommonPatterns: seq<string> := ["password", "123456", "qwerty", "admin"]

  /**
   * `commonPatterns.some(pattern => pwd.toLowerCase().includes(pattern))`.
   * Lower-casing only the ASCII capitals gives the same answer as the full
   * Unicode `toLowerCase`: the only other characters whose lower case holds
   * an ASCII letter are U+212A (to `k`, in no pattern) and U+0130 (to `i`
   * followed by a combining dot, which no pattern can continue through).
   */
  predicate IsCommon(pwd: string) {
    exists k :: 0 <= k < |CommonPatterns| && Contains(ToLowerAscii(pwd), CommonPatterns[k])
  }

  /** Points for the length alone. */
  function LengthPoints(n: nat): (p: nat)
    ensures p <= 40 && p % 5 == 0
    ensures n < 6 ==> p == 5 * n
    ensures 6 <= n <= 8 ==> p == 20
    ensures n > 8 ==> p == 40
  {
    if n < 6 then 5 * n else if n <= 8 then 20 else 40
  }

  /** How many of the four classes occur, in the order the scorer tests them. */
  function ClassCount(pwd: string): (n: nat)
    ensures n <= 4
    ensures n == 4 <==> forall k :: Has(pwd, k)
  {
    (if Has(pwd, Lowercase) then 1 else 0) + (if Has(pwd, Uppercase) then 1 else 0)
      + (if Has(pwd, Digit) then 1 else 0) + (if Has(pwd, Symbol) then 1 else 0)
  }

  function Max(a: int, b: int): int { if a >= b then a else b }
  function Min(a: int, b: int): int { if a <= b then a else b }

  /** The score: length points, ten per class present, less twenty (not below zero) for a common pattern, clamped to [0, 100]. */
  function Score(pwd: string): (s: int)
    ensures s == 0 <==> pwd == []
  {
    CommonNeedsLetterOrDigit(pwd);
    var raw := LengthPoints(|pwd|) + 10 * ClassCount(pwd);
    var deducted := if IsCommon(pwd) then Max(0, raw - 20) else raw;
    Max(0, Min(100, deducted))
  }

  /**
   * A common pattern takes at least five characters, and its first one is a
   * letter or a digit of the password.
   */
  lemma CommonNeedsLetterOrDigit(pwd: string)
    ensures IsCommon(pwd) ==> |pwd| >= 5 && (Has(pwd, Lowercase) || Has(pwd, Uppercase) || Has(pwd, Digit))
  {
    if IsCommon(pwd) {
      var lower := ToLowerAscii(pwd);
      var k :| 0 <= k < |CommonPatterns| && Contains(lower, CommonPatterns[k]);
      var pattern := CommonPatterns[k];
      var i :| 0 <= i <= |lower| - |pattern| && OccursAt(lower, pattern, i);
      assert lower[i] == pattern[0];
      if 'A' <= pwd[i] <= 'Z' {
        assert InClass(pwd[i], Uppercase);
      } else if 'a' <= pwd[i] <= 'z' {
        assert InClass(pwd[i], Lowercase);
      } else {
        assert InClass(pwd[i], Digit);
      }
    }
  }

  /** The hint about the length. */
  function LengthHints(n: nat): seq<Hint> {
    if n < 6 then [TooShort] else if n <= 8 then [MakeLonger] else []
  }

  /** One hint per missing class, in the order the classes are tested. */
  function ClassHints(pwd: string): seq<Hint> {
    (if Has(pwd, Lowercase) then [] else [Add(Lowercase)])
      + (if Has(pwd, Uppercase) then [] else [Add(Uppercase)])
      + (if Has(pwd, Digit) then [] else [Add(Digit)])
      + (if Has(pwd, Symbol) then [] else [Add(Symbol)])
  }

  /** The hints the scorer collects, in the order it pushes them. */
  function Hints(pwd: string): (hints: seq<Hint>)
    ensures TooShort in hints <==> |pwd| < 6
    ensures MakeLonger in hints <==> 6 <= |pwd| <= 8
    ensures AvoidCommon in hints <==> IsCommon(pwd)
  {
    LengthHints(|pwd|) + ClassHints(pwd) + (if IsCommon(pwd) then [AvoidCommon] else [])
  }

  /** The verdict bands, bounded by 20, 40, 60 and 80. */
  datatype Band = VeryWeak | Weak | Moderate | Strong | VeryStrong

  function BandOf(score: int): (b: Band)
    ensures b == VeryStrong <==> score >= 80
    ensures b == VeryWeak <==> score < 20
  {
    if score < 20 then VeryWeak
    else if score < 40 then Weak
    else if score < 60 then Moderate
    else if score < 80 then Strong
    else VeryStrong
  }

  /** The words that open the message of each band. */
  function Prefix(b: Band): string {
    match b
    case VeryWeak => "Very Weak: "
    case Weak => "Weak: "
    case Moderate => "Moderate: "
    case Strong => "Strong: "
    case VeryStrong => "Very Strong: "
  }

  /** The text of each band when there is no hint. */
  function Praise(b: Band): string {
    match b
    case VeryWeak => "Needs significant improvement."
    case Weak => "Consider adding more complexity."
    case Moderate => "Good, but could be stronger."
    case Strong => "Excellent password!"
    case VeryStrong => "Great job!"
  }

  const Prompt: string := "Type your password to check its strength."

  /** The message for a password of the given length, score and hints: the prompt when it is empty, else the band's words and the hints, or its praise when there are none. */
  function Verdict(length: nat, score: int, hints: seq<Hint>): string {
    if length == 0 then Prompt
    else Prefix(BandOf(score)) + (if |hints| > 0 then Join(HintTexts(hints), " ") else Praise(BandOf(score)))
  }

  function Message(pwd: string): (message: string)
    ensures message == Prompt <==> pwd == []
    ensures pwd != [] ==> Prefix(BandOf(Score(pwd))) <= message
  {
    assert Prompt[0] == 'T';
    Verdict(|pwd|, Score(pwd), Hints(pwd))
  }

  /** `pwd.toLowerCase()` and the `some` over the common patterns, stopping at the first one found. */
  method CheckCommon(pwd: string) returns (isCommon: bool)
    ensures isCommon == IsCommon(pwd)
  {
    var lower := ToLowerAscii(pwd);
    var k := 0;
    while k < |CommonPatterns|
      invariant 0 <= k <= |CommonPatterns|
      invariant forall j :: 0 <= j < k ==> !Contains(lower, CommonPatterns[j])
    {
      if Contains(lower, CommonPatterns[k]) {
        return true;
      }
      k := k + 1;
    }
    return false;
  }

  /** `evaluatePasswordStrength(pwd)`: the score and the message, built step by step. */
  method EvaluatePasswordStrength(pwd: string) returns (score: int, message: string)
    ensures score == Score(pwd) && message == Message(pwd)
  {
    var messages: seq<Hint>;
    score, messages := LengthStep(|pwd|);
    var charTypeCount;
    score, charTypeCount := ClassPoints(pwd, score);
    messages := ClassStep(pwd, messages);

    var isCommon := CheckCommon(pwd);
    if isCommon {
      score := Max(0, score - 20);
      messages := messages + [AvoidCommon];
    }
    assert messages == Hints(pwd);

    score := Min(100, score);
    score := Max(0, score);
    assert score == Score(pwd);
    message := ComposeMessage(|pwd|, score, messages);
  }

  /** The opening of `evaluatePasswordStrength`: points and a hint for the length. */
  method LengthStep(length: nat) returns (score: int, messages: seq<Hint>)
    ensures score == LengthPoints(length) && messages == LengthHints(length)
  {
    score := 0;
    messages := [];
    if length < 6 {
      messages := messages + [TooShort];
      score := score + length * 5;
    } else if 6 <= length <= 8 {
      score := score + 20;
      messages := messages + [MakeLonger];
    } else if length > 8 {
      score := score + 40;
    }
  }

  /** Ten points, and one more in `charTypeCount`, for each class the password has. */
  method ClassPoints(pwd: string, score0: int) returns (score: int, charTypeCount: nat)
    ensures charTypeCount == ClassCount(pwd) && score == score0 + 10 * charTypeCount
  {
    score := score0;
    var hasLowercase := Has(pwd, Lowercase);
    var hasUppercase := Has(pwd, Uppercase);
    var hasNumber := Has(pwd, Digit);
    var hasSymbol := Has(pwd, Symbol);

    charTypeCount := 0;
    if hasLowercase { score := score + 10; charTypeCount := charTypeCount + 1; }
    if hasUppercase { score := score + 10; charTypeCount := charTypeCount + 1; }
    if hasNumber { score := score + 10; charTypeCount := charTypeCount + 1; }
    if hasSymbol { score := score + 10; charTypeCount := charTypeCount + 1; }
  }

  /** A hint pushed for each class the password lacks. */
  method ClassStep(pwd: string, messages0: seq<Hint>) returns (messages: seq<Hint>)
    ensures messages == messages0 + ClassHints(pwd)
  {
    messages := messages0;
    if !Has(pwd, Lowercase) { messages := messages + [Add(Lowercase)]; }
    if !Has(pwd, Uppercase) { messages := messages + [Add(Uppercase)]; }
    if !Has(pwd, Digit) { messages := messages + [Add(Digit)]; }
    if !Has(pwd, Symbol) { messages := messages + [Add(Symbol)]; }
  }

  /** The tail of `evaluatePasswordStrength`: the if-chain that chooses the message. */
  method ComposeMessage(length: nat, score: int, messages: seq<Hint>) returns (message: string)
    ensures message == Verdict(length, score, messages)
  {
    var joined := if |messages| > 0 then Join(HintTexts(messages), " ") else "";
    if length == 0 {
      message := Prompt;
    } else if score < 20 {
      message := "Very Weak: " + (if |messages| > 0 then joined else "Needs significant improvement.");
    } else if score < 40 {
      message := "Weak: " + (if |messages| > 0 then joined else "Consider adding more complexity.");
    } else if score < 60 {
      message := "Moderate: " + (if |messages| > 0 then joined else "Good, but could be stronger.");
    } else if score < 80 {
      message := "Strong: " + (if |messages| > 0 then joined else "Excellent password!");
    } else {
      message := "Very Strong: " + (if |messages| > 0 then joined else "Great job!");
    }
  }

  /** The score is a multiple of 5 between 0 and 80, so the cap at 100 and the floor at 0 never change it. */
  lemma ScoreBounds(pwd: string)
    ensures 0 <= Score(pwd) <= 80 && Score(pwd) % 5 == 0
    ensures var raw := LengthPoints(|pwd|) + 10 * ClassCount(pwd);
      Score(pwd) == if IsCommon(pwd) then Max(0, raw - 20) else raw
  {
    var lp, cc := LengthPoints(|pwd|), ClassCount(pwd);
    FivePoints(lp, cc);
  }

  /** Length points and ten per class always make a multiple of 5 between 0 and 80, and so does deducting 20. */
  lemma FivePoints(lp: nat, cc: nat)
    requires lp <= 40 && lp % 5 == 0 && cc <= 4
    ensures var raw := lp + 10 * cc;
      && 0 <= raw <= 80 && raw % 5 == 0 && Max(0, raw - 20) % 5 == 0
  {
    var q := lp / 5;
    assert lp == 5 * q;
    assert lp + 10 * cc == 5 * (q + 2 * cc);
    if lp + 10 * cc >= 20 {
      assert lp + 10 * cc - 20 == 5 * (q + 2 * cc - 4);
    }
  }

  /** The top score of 80 needs more than eight characters, all four classes and no common pattern, and they suffice. */
  lemma TopScore(pwd: string)
    ensures Score(pwd) == 80 <==> |pwd| > 8 && ClassCount(pwd) == 4 && !IsCommon(pwd)
  {
  }

  /** A password holding a common pattern scores at most 60, so it is never rated Very Strong. */
  lemma CommonCapped(pwd: string)
    requires IsCommon(pwd)
    ensures Score(pwd) <= 60 && BandOf(Score(pwd)) != VeryStrong
  {
  }

  /** One hint for a length of at most 8, one per missing class, and one for a common pattern. */
  lemma HintCount(pwd: string)
    ensures |Hints(pwd)| == (if |pwd| <= 8 then 1 else 0) + (4 - ClassCount(pwd)) + (if IsCommon(pwd) then 1 else 0)
  {
  }

  /** The hint for a class is given exactly when the class is missing. */
  lemma ClassHint(pwd: string, k: CharClass)
    ensures Add(k) in Hints(pwd) <==> !Has(pwd, k)
  {
    var hints := Hints(pwd);
    var lengthHints, classHints := LengthHints(|pwd|), ClassHints(pwd);
    var commonHints := if IsCommon(pwd) then [AvoidCommon] else [];
    assert hints == lengthHints + classHints + commonHints;
    assert Add(k) !in lengthHints && Add(k) !in commonHints;
    if Add(k) in classHints {
      var i :| 0 <= i < |classHints| && classHints[i] == Add(k);
    }
    if !Has(pwd, k) {
      match k
      case Lowercase =>
      case Uppercase =>
      case Digit =>
      case Symbol =>
    }
  }

  /** The empty password scores 0 and gets the prompt. */
  lemma EmptyPassword()
    ensures Score("") == 0 && Message("") == Prompt
  {
    forall k ensures !Has("", k) { }
    forall p | p in CommonPatterns ensures !Contains(ToLowerAscii(""), p) {
      assert |p| > 0;
    }
  }

  /** A Very Strong verdict comes with no hint, so its message is exactly `Very Strong: Great job!`. */
  lemma VeryStrongMessage(pwd: string)
    requires BandOf(Score(pwd)) == VeryStrong
    ensures Hints(pwd) == []
    ensures Message(pwd) == "Very Strong: Great job!"
  {
    ScoreBounds(pwd);
    TopScore(pwd);
    assert Has(pwd, Lowercase) && Has(pwd, Uppercase) && Has(pwd, Digit) && Has(pwd, Symbol);
  }

  /** `getStrengthBarColor`: the bar colour for a score. */
  function StrengthBarColor(strengthScore: int): (color: string)
    ensures color == BandColor(BandOf(strengthScore))
  {
    if strengthScore < 20 then "#F4364B"
    else if strengthScore < 40 then "#FFB800"
    else if strengthScore < 60 then "#027BE5"
    else if strengthScore < 80 then "#4CAF50"
    else "#28A745"
  }

  /** The colour of each verdict band. */
  function BandColor(b: Band): string {
    match b
    case VeryWeak => "#F4364B"
    case Weak => "#FFB800"
    case Moderate => "#027BE5"
    case Strong => "#4CAF50"
    case VeryStrong => "#28A745"
  }
}
