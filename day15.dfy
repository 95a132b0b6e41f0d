/**
 * The password checks of /15 (src/day_15.rs): the `nice` rules of `day15_password` and the
 * ordered rule chain of `day15_game`. The Unicode `Alphabetic` property that `char::is_alphabetic`
 * consults is a parameter `alpha`, and so is the one fact the game needs about the SHA-256
 * digest of the password (whether its hex form ends in 'a').
 */
module Passwords {
  import opened Wrappers
  import opened MachineInt
  import Http
  import Text
  import Decimal

  datatype Verdict = Nice | Naughty

  /** `Result::as_str`. */
  function AsStr(v: Verdict): string {
    match v
    case Nice => "nice"
    case Naughty => "naughty"
  }

  /** `Result::from_str`: only "nice" is nice. */
  function FromStr(s: string): Verdict {
    if s == "nice" then Nice else Naughty
  }

  /** The two names read back as the verdicts they name, and every other string reads as naughty. */
  lemma VerdictNames(v: Verdict, s: string)
    ensures FromStr(AsStr(v)) == v
    ensures s != AsStr(Nice) ==> FromStr(s) == Naughty
    ensures FromStr(s) == Nice <==> s == AsStr(Nice)
  {
  }

  // ---------------------------------------------------------------- day15_password

  const FORBIDDEN: seq<string> := ["ab", "cd", "pq", "xy"]

  predicate IsVowel(c: char) {
    c == 'a' || c == 'e' || c == 'i' || c == 'o' || c == 'u' || c == 'y'
  }

  function VowelCount(s: string): (n: nat)
    ensures n <= |s|
  {
    if s == [] then 0 else VowelCount(s[..|s| - 1]) + (if IsVowel(s[|s| - 1]) then 1 else 0)
  }

  /** Two neighbouring characters are the same alphabetic character. */
  predicate DoubleLetter(s: string, alpha: char -> bool) {
    exists i :: 0 <= i && i + 1 < |s| && alpha(s[i]) && s[i] == s[i + 1]
  }

  /** The guards of `day15_password`, tried in order. */
  function PasswordVerdict(p: string, alpha: char -> bool): Verdict {
    if Text.Contains(p, "ab") then Naughty
    else if Text.Contains(p, "cd") then Naughty
    else if Text.Contains(p, "pq") then Naughty
    else if Text.Contains(p, "xy") then Naughty
    else if VowelCount(p) < 3 then Naughty
    else if DoubleLetter(p, alpha) then Nice
    else Naughty
  }

  datatype PasswordReply = PasswordReply(status: Http.StatusCode, result: string)

  /** `day15_password`: the verdict's name, with 200 when it reads back as nice and 400 otherwise. */
  function Day15Password(p: string, alpha: char -> bool): (r: PasswordReply)
    ensures r.status == Http.OK <==> r.result == AsStr(Nice)
    ensures r.status == Http.OK || r.status == Http.BAD_REQUEST
    ensures r.result == AsStr(Nice) || r.result == AsStr(Naughty)
  {
    var result := AsStr(PasswordVerdict(p, alpha));
    match FromStr(result)
    case Nice => PasswordReply(Http.OK, result)
    case Naughty => PasswordReply(Http.BAD_REQUEST, result)
  }

  /**
   * A password is accepted exactly when it contains none of the forbidden pairs, has at least
   * three vowels, and has a doubled letter.
   */
  lemma PasswordRules(p: string, alpha: char -> bool)
    ensures Day15Password(p, alpha).status == Http.OK
        <==> (forall i :: 0 <= i < |FORBIDDEN| ==> !Text.Contains(p, FORBIDDEN[i]))
             && VowelCount(p) >= 3 && DoubleLetter(p, alpha)
  {
    VerdictNames(PasswordVerdict(p, alpha), "");
    if forall i :: 0 <= i < |FORBIDDEN| ==> !Text.Contains(p, FORBIDDEN[i]) {
      assert !Text.Contains(p, FORBIDDEN[0]) && !Text.Contains(p, FORBIDDEN[1]);
      assert !Text.Contains(p, FORBIDDEN[2]) && !Text.Contains(p, FORBIDDEN[3]);
    } else {
      var i :| 0 <= i < |FORBIDDEN| && Text.Contains(p, FORBIDDEN[i]);
      assert i == 0 || i == 1 || i == 2 || i == 3;
    }
  }

  // ---------------------------------------------------------------- day15_game: character classes

  /** The number of bytes of `c` in UTF-8. */
  function Utf8Width(c: char): (w: nat)
    ensures 1 <= w <= 4
  {
    if c as int < 0x80 then 1 else if c as int < 0x800 then 2 else if c as int < 0x1_0000 then 3 else 4
  }

  /** `str::len`: the length of the UTF-8 encoding. */
  function Utf8Len(s: string): (n: nat)
    ensures |s| <= n <= 4 * |s|
  {
    if s == [] then 0 else Utf8Len(s[..|s| - 1]) + Utf8Width(s[|s| - 1])
  }

  predicate IsUpper(c: char) { 'A' <= c <= 'Z' }
  predicate IsLower(c: char) { 'a' <= c <= 'z' }
  predicate IsAsciiAlnum(c: char) { IsUpper(c) || IsLower(c) || Decimal.IsDigit(c) }

  predicate HasUpper(s: string) { exists i :: 0 <= i < |s| && IsUpper(s[i]) }
  predicate HasLower(s: string) { exists i :: 0 <= i < |s| && IsLower(s[i]) }
  predicate HasDigit(s: string) { exists i :: 0 <= i < |s| && Decimal.IsDigit(s[i]) }

  /** The digits of `s`, in order: what `[0-9]` finds one match at a time. */
  function DigitsOf(s: string): (d: string)
    ensures Decimal.AllDigits(d) && |d| <= |s|
  {
    if s == [] then []
    else (if Decimal.IsDigit(s[0]) then [s[0]] else []) + DigitsOf(s[1..])
  }

  /** `digit.find_iter(password).count()`. */
  function DigitCount(s: string): nat {
    |DigitsOf(s)|
  }

  lemma {:induction false} DigitCountPositive(s: string)
    ensures DigitCount(s) > 0 <==> HasDigit(s)
  {
    if s != [] {
      DigitCountPositive(s[1..]);
      if HasDigit(s[1..]) {
        var i :| 0 <= i < |s[1..]| && Decimal.IsDigit(s[1..][i]);
        assert Decimal.IsDigit(s[i + 1]);
      }
      if HasDigit(s) && !Decimal.IsDigit(s[0]) {
        var i :| 0 <= i < |s| && Decimal.IsDigit(s[i]);
        assert Decimal.IsDigit(s[1..][i - 1]);
      }
    }
  }

  // ---------------------------------------------------------------- day15_game: digit runs

  /** The length of the longest all-digit prefix of `s`. */
  function LeadingDigits(s: string): (n: nat)
    ensures n <= |s| && Decimal.AllDigits(s[..n])
    ensures n < |s| ==> !Decimal.IsDigit(s[n])
  {
    if s == [] || !Decimal.IsDigit(s[0]) then 0
    else
      var n := LeadingDigits(s[1..]);
      assert s[..n + 1] == [s[0]] + s[1..][..n];
      n + 1
  }

  /** The maximal runs of digits of `s`, left to right: the matches of `[0-9]+`. */
  function DigitRuns(s: string): (runs: seq<string>)
    ensures forall i :: 0 <= i < |runs| ==> |runs[i]| > 0 && Decimal.AllDigits(runs[i])
    decreases |s|
  {
    if s == [] then []
    else if !Decimal.IsDigit(s[0]) then DigitRuns(s[1..])
    else
      var n := LeadingDigits(s);
      [s[..n]] + DigitRuns(s[n..])
  }

  function Concat(runs: seq<string>): string {
    if runs == [] then [] else runs[0] + Concat(runs[1..])
  }

  lemma {:induction false} DigitsOfDigitPrefix(s: string, n: nat)
    requires n <= |s| && Decimal.AllDigits(s[..n])
    ensures DigitsOf(s) == s[..n] + DigitsOf(s[n..])
  {
    if n > 0 {
      assert Decimal.AllDigits(s[1..][..n - 1]) by {
        assert s[1..][..n - 1] == s[1..n];
      }
      DigitsOfDigitPrefix(s[1..], n - 1);
      assert s[1..][n - 1..] == s[n..];
      assert s[..n] == [s[0]] + s[1..][..n - 1];
    }
  }

  /** The runs hold all the digits of the password and nothing else. */
  lemma {:induction false} RunsHoldTheDigits(s: string)
    ensures Concat(DigitRuns(s)) == DigitsOf(s)
    decreases |s|
  {
    if s != [] {
      if !Decimal.IsDigit(s[0]) {
        RunsHoldTheDigits(s[1..]);
      } else {
        var n := LeadingDigits(s);
        RunsHoldTheDigits(s[n..]);
        DigitsOfDigitPrefix(s, n);
        assert DigitRuns(s)[1..] == DigitRuns(s[n..]);
      }
    }
  }

  /** `gaps[0] + runs[0] + gaps[1] + … + runs[k - 1] + gaps[k]`. */
  function Weave(gaps: seq<string>, runs: seq<string>): string
    requires |gaps| == |runs| + 1
    decreases |runs|
  {
    if runs == [] then gaps[0] else gaps[0] + runs[0] + Weave(gaps[1..], runs[1..])
  }

  /** A character in front of the first gap joins that gap. */
  lemma WeaveCons(c: char, gaps: seq<string>, runs: seq<string>)
    requires |gaps| == |runs| + 1
    ensures Weave([[c] + gaps[0]] + gaps[1..], runs) == [c] + Weave(gaps, runs)
  {
    var g := [[c] + gaps[0]] + gaps[1..];
    assert g[1..] == gaps[1..];
    if runs != [] {
      assert Weave(g, runs) == g[0] + runs[0] + Weave(gaps[1..], runs[1..]);
    }
  }

  /**
   * `gaps` cut `s` around its runs: the runs with digit-free gaps between and around them,
   * every gap between two runs holding at least one character; the first gap is empty only
   * when `s` is empty or starts with a digit.
   */
  predicate GapsOf(s: string, gaps: seq<string>) {
    var runs := DigitRuns(s);
    |gaps| == |runs| + 1 && Weave(gaps, runs) == s
    && (forall i :: 0 <= i < |gaps| ==> !HasDigit(gaps[i]))
    && (forall i :: 0 < i < |gaps| - 1 ==> |gaps[i]| > 0)
    && (s != [] && !Decimal.IsDigit(s[0]) ==> |gaps[0]| > 0)
  }

  /** A leading non-digit joins the first gap. */
  lemma GapsSkip(s: string, rest: seq<string>)
    requires s != [] && !Decimal.IsDigit(s[0]) && GapsOf(s[1..], rest)
    ensures GapsOf(s, [[s[0]] + rest[0]] + rest[1..])
  {
    var gaps := [[s[0]] + rest[0]] + rest[1..];
    assert DigitRuns(s) == DigitRuns(s[1..]);
    WeaveCons(s[0], rest, DigitRuns(s[1..]));
    assert [s[0]] + s[1..] == s;
    assert !HasDigit(gaps[0]) by {
      forall k | 0 <= k < |gaps[0]|
        ensures !Decimal.IsDigit(gaps[0][k])
      {
        if k > 0 {
          assert gaps[0][k] == rest[0][k - 1];
        }
      }
    }
    assert forall i :: 0 < i < |gaps| ==> gaps[i] == rest[i];
  }

  /** A run after an empty first gap comes first in the weave. */
  lemma WeaveRun(run: string, gaps: seq<string>, runs: seq<string>)
    requires |gaps| == |runs| + 1
    ensures Weave([""] + gaps, [run] + runs) == run + Weave(gaps, runs)
  {
    var g, r := [""] + gaps, [run] + runs;
    assert g[0] == "" && r[0] == run && g[1..] == gaps && r[1..] == runs;
    assert Weave(g, r) == g[0] + r[0] + Weave(gaps, runs);
    assert "" + run == run;
  }

  /** Gaps for the text after a run, with an empty gap put in front, are gaps for the whole. */
  lemma GapsPrepend(run: string, t: string, rest: seq<string>, later: seq<string>)
    requires |rest| == |later| + 1 && Weave(rest, later) == t
    requires forall i :: 0 <= i < |rest| ==> !HasDigit(rest[i])
    requires forall i :: 0 < i < |rest| - 1 ==> |rest[i]| > 0
    requires later != [] ==> |rest[0]| > 0
    ensures Weave([""] + rest, [run] + later) == run + t
    ensures forall i :: 0 <= i < |rest| + 1 ==> !HasDigit(([""] + rest)[i])
    ensures forall i :: 0 < i < |rest| ==> |([""] + rest)[i]| > 0
  {
    WeaveRun(run, rest, later);
    var gaps := [""] + rest;
    assert forall i :: 0 < i < |gaps| ==> gaps[i] == rest[i - 1];
  }

  /** A leading run of digits is the first run, after an empty first gap. */
  lemma GapsRun(s: string, rest: seq<string>)
    requires s != [] && Decimal.IsDigit(s[0]) && GapsOf(s[LeadingDigits(s)..], rest)
    ensures GapsOf(s, [""] + rest)
  {
    var n := LeadingDigits(s);
    var later := DigitRuns(s[n..]);
    assert DigitRuns(s) == [s[..n]] + later;
    assert later != [] ==> |rest[0]| > 0 by {
      if later != [] {
        assert s[n..] != [] && s[n..][0] == s[n];
      }
    }
    GapsPrepend(s[..n], s[n..], rest, later);
    assert s[..n] + s[n..] == s;
  }

  /** The runs are maximal: no two touch, and nothing between or around them is a digit. */
  lemma {:induction false} DigitRunsMaximal(s: string) returns (gaps: seq<string>)
    ensures GapsOf(s, gaps)
    decreases |s|
  {
    if s == [] {
      gaps := [""];
    } else if !Decimal.IsDigit(s[0]) {
      var rest := DigitRunsMaximal(s[1..]);
      GapsSkip(s, rest);
      gaps := [[s[0]] + rest[0]] + rest[1..];
    } else {
      var rest := DigitRunsMaximal(s[LeadingDigits(s)..]);
      GapsRun(s, rest);
      gaps := [""] + rest;
    }
  }

  /** Every run parses as an i32, so the `unwrap`s of the math rule do not panic. */
  predicate RunsParse(s: string) {
    var runs := DigitRuns(s);
    forall i :: 0 <= i < |runs| ==> Decimal.ParseI32(runs[i]).Some?
  }

  /** A run of digits parses as the number it denotes when that fits in an i32. */
  lemma ParseRun(run: string)
    requires |run| > 0 && Decimal.AllDigits(run)
    ensures Decimal.ParseI32(run) == if Decimal.Value(run) <= I32_MAX then Some(Decimal.Value(run)) else None
  {
  }

  /** `.map(|m| m.as_str().parse::<i32>().unwrap()).sum::<i32>()`, wrapping at each addition. */
  function SumI32(runs: seq<string>): (total: int)
    requires forall i :: 0 <= i < |runs| ==> Decimal.ParseI32(runs[i]).Some?
    ensures IsI32(total)
  {
    if runs == [] then 0
    else Wrap32(SumI32(runs[..|runs| - 1]) + Decimal.ParseI32(runs[|runs| - 1]).value)
  }

  /** The plain sum of the numbers the runs denote. */
  function ValueSum(runs: seq<string>): nat
    requires forall i :: 0 <= i < |runs| ==> Decimal.AllDigits(runs[i])
  {
    if runs == [] then 0 else ValueSum(runs[..|runs| - 1]) + Decimal.Value(runs[|runs| - 1])
  }

  /** The math rule's sum is the sum of the numbers written in the password, taken modulo 2^32. */
  lemma {:induction false} SumIsWrappedTotal(runs: seq<string>)
    requires forall i :: 0 <= i < |runs| ==> |runs[i]| > 0 && Decimal.AllDigits(runs[i])
    requires forall i :: 0 <= i < |runs| ==> Decimal.ParseI32(runs[i]).Some?
    ensures SumI32(runs) == Wrap32(ValueSum(runs))
  {
    if runs == [] {
      WrapInRange(0);
    } else {
      var init := runs[..|runs| - 1];
      SumIsWrappedTotal(init);
      ParseRun(runs[|runs| - 1]);
      WrapAdd(ValueSum(init), Decimal.Value(runs[|runs| - 1]));
    }
  }

  // ---------------------------------------------------------------- day15_game: joy, sandwich, ranges

  /** `j.*o.*y`: a 'j', a later 'o' and a later 'y' on one line (`.` does not match '\n'). */
  predicate JoyInOrder(s: string) {
    exists i, j, k :: 0 <= i < j < k < |s| && s[i] == 'j' && s[j] == 'o' && s[k] == 'y' && '\n' !in s[i..k + 1]
  }

  /** `joy[a-zA-Z0-9]+`. */
  predicate JoyThenAlnum(s: string) {
    exists i :: 0 <= i && i + 3 < |s| && Text.OccursAt(s, "joy", i) && IsAsciiAlnum(s[i + 3])
  }

  /** `[a-zA-Z0-9]+joy`. */
  predicate AlnumThenJoy(s: string) {
    exists i :: 1 <= i < |s| && Text.OccursAt(s, "joy", i) && IsAsciiAlnum(s[i - 1])
  }

  /** An alphabetic character, a different one, then the first again. */
  predicate Sandwich(s: string, alpha: char -> bool) {
    exists i :: 0 <= i && i + 2 < |s| && alpha(s[i]) && s[i] == s[i + 2] && s[i + 1] != s[i]
  }

  predicate HasCharIn(s: string, lo: int, hi: int) {
    exists i :: 0 <= i < |s| && lo <= s[i] as int <= hi
  }

  /** The character class of the `emoji` regex. */
  predicate IsEmoji(c: char) {
    (0x1F600 <= c as int <= 0x1F64F) || (0x1F300 <= c as int <= 0x1F5FF) || (0x1F680 <= c as int <= 0x1F6FF)
    || (0x1F1E0 <= c as int <= 0x1F1FF) || (0x2702 <= c as int <= 0x27B0)
  }

  predicate HasEmoji(s: string) {
    exists i :: 0 <= i < |s| && IsEmoji(s[i])
  }

  // ---------------------------------------------------------------- day15_game

  datatype GameReply = GameReply(status: Http.StatusCode, result: string, reason: string)

  /** The reason string of the emoji rule: the four characters U+00F0 U+0178 U+02DC U+00B3. */
  const NO_EMOJI_REASON: string := "\U{00F0}\U{0178}\U{02DC}\U{00B3}"

  function Rejected(status: Http.StatusCode, reason: string): GameReply {
    GameReply(status, AsStr(Verdict.Naughty), reason)
  }

  /** The password passes the length, character-type and digit-count rules, so the math rule is evaluated. */
  predicate ReachesMath(p: string) {
    Utf8Len(p) >= 8 && HasUpper(p) && HasLower(p) && HasDigit(p) && DigitCount(p) >= 5
  }

  /**
   * What each of the game's guards finds, one flag per rule, each true when the password keeps
   * that rule. The guards are pure, so gathering them first does not change the reply.
   */
  datatype Checks = Checks(
    eightChars: bool, charTypes: bool, fiveDigits: bool, math: bool,
    joyOrder: bool, noJoyJoy: bool, noJoyThenAlnum: bool, noAlnumThenJoy: bool,
    sandwich: bool, outranged: bool, emoji: bool, coffee: bool)

  /**
   * The guards of `day15_game` on `p`. The sum of the digit runs is parsed with `unwrap`, which
   * is demanded only when the rules before it hold (`ReachesMath`); the flag is false otherwise,
   * where no later guard is consulted.
   */
  function GameChecks(p: string, alpha: char -> bool, hashEndsWithA: bool): Checks
    requires ReachesMath(p) ==> RunsParse(p)
  {
    Checks(
      Utf8Len(p) >= 8, HasUpper(p) && HasLower(p) && HasDigit(p), DigitCount(p) >= 5,
      ReachesMath(p) && SumI32(DigitRuns(p)) == 2023,
      JoyInOrder(p), !Text.Contains(p, "joy joy"), !JoyThenAlnum(p), !AlnumThenJoy(p),
      Sandwich(p, alpha), HasCharIn(p, 0x2980, 0x2BFF), HasEmoji(p), hashEndsWithA)
  }

  /** The `match` of `day15_game`: the guards in source order; the first that fires decides the reply. */
  function Decide(c: Checks): (r: GameReply)
    ensures r.status == Http.OK <==> r.result == AsStr(Verdict.Nice)
  {
    if !c.eightChars then Rejected(Http.BAD_REQUEST, "8 chars")
    else if !c.charTypes then Rejected(Http.BAD_REQUEST, "more types of chars")
    else if !c.fiveDigits then Rejected(Http.BAD_REQUEST, "55555")
    else if !c.math then Rejected(Http.BAD_REQUEST, "math is hard")
    else if !c.joyOrder then Rejected(Http.NOT_ACCEPTABLE, "not joyful enough")
    else if !c.noJoyJoy then Rejected(Http.NOT_ACCEPTABLE, "not joyful enough")
    else if !c.noJoyThenAlnum then Rejected(Http.NOT_ACCEPTABLE, "not joyful enough")
    else if !c.noAlnumThenJoy then Rejected(Http.NOT_ACCEPTABLE, "not joyful enough")
    else if !c.sandwich then Rejected(Http.UNAVAILABLE_FOR_LEGAL_REASONS, "illegal: no sandwich")
    else if !c.outranged then Rejected(Http.RANGE_NOT_SATISFIABLE, "outranged")
    else if !c.emoji then Rejected(Http.UPGRADE_REQUIRED, NO_EMOJI_REASON)
    else if !c.coffee then Rejected(Http.IM_A_TEAPOT, "not a coffee brewer")
    else GameReply(Http.OK, AsStr(Verdict.Nice), "that's a nice password")
  }

  /** `day15_game` on the password `p`. */
  function Day15Game(p: string, alpha: char -> bool, hashEndsWithA: bool): (r: GameReply)
    requires ReachesMath(p) ==> RunsParse(p)
    ensures r.status == Http.OK <==> r.result == AsStr(Verdict.Nice)
  {
    Decide(GameChecks(p, alpha, hashEndsWithA))
  }

  /** The game's rules as data, each with the reply it gives when broken. */
  datatype Rule =
    | EightChars | CharTypes | FiveDigits | Math | JoyOrder | NoJoyJoy | NoJoyThenAlnum | NoAlnumThenJoy
    | SandwichRule | Outranged | EmojiRule | CoffeeRule

  /** The number of rules. */
  const RULE_COUNT: nat := 12

  /** The `k`-th rule in the order the handler checks them. */
  function RuleAt(k: nat): Rule
    requires k < RULE_COUNT
  {
    if k == 0 then EightChars else if k == 1 then CharTypes else if k == 2 then FiveDigits
    else if k == 3 then Math else if k == 4 then JoyOrder else if k == 5 then NoJoyJoy
    else if k == 6 then NoJoyThenAlnum else if k == 7 then NoAlnumThenJoy else if k == 8 then SandwichRule
    else if k == 9 then Outranged else if k == 10 then EmojiRule else CoffeeRule
  }

  predicate Keeps(c: Checks, rule: Rule) {
    match rule
    case EightChars => c.eightChars
    case CharTypes => c.charTypes
    case FiveDigits => c.fiveDigits
    case Math => c.math
    case JoyOrder => c.joyOrder
    case NoJoyJoy => c.noJoyJoy
    case NoJoyThenAlnum => c.noJoyThenAlnum
    case NoAlnumThenJoy => c.noAlnumThenJoy
    case SandwichRule => c.sandwich
    case Outranged => c.outranged
    case EmojiRule => c.emoji
    case CoffeeRule => c.coffee
  }

  function Penalty(rule: Rule): GameReply {
    match rule
    case EightChars => Rejected(Http.BAD_REQUEST, "8 chars")
    case CharTypes => Rejected(Http.BAD_REQUEST, "more types of chars")
    case FiveDigits => Rejected(Http.BAD_REQUEST, "55555")
    case Math => Rejected(Http.BAD_REQUEST, "math is hard")
    case JoyOrder => Rejected(Http.NOT_ACCEPTABLE, "not joyful enough")
    case NoJoyJoy => Rejected(Http.NOT_ACCEPTABLE, "not joyful enough")
    case NoJoyThenAlnum => Rejected(Http.NOT_ACCEPTABLE, "not joyful enough")
    case NoAlnumThenJoy => Rejected(Http.NOT_ACCEPTABLE, "not joyful enough")
    case SandwichRule => Rejected(Http.UNAVAILABLE_FOR_LEGAL_REASONS, "illegal: no sandwich")
    case Outranged => Rejected(Http.RANGE_NOT_SATISFIABLE, "outranged")
    case EmojiRule => Rejected(Http.UPGRADE_REQUIRED, NO_EMOJI_REASON)
    case CoffeeRule => Rejected(Http.IM_A_TEAPOT, "not a coffee brewer")
  }

  /** The checks `c` keep the first `k` rules of the game. */
  predicate KeepsFirst(c: Checks, k: nat)
    requires k <= RULE_COUNT
  {
    forall j :: 0 <= j < k ==> Keeps(c, RuleAt(j))
  }

  /** When rule `k` is the first one broken, the game answers with that rule's penalty. */
  lemma FirstBrokenRuleDecides(c: Checks, k: nat)
    requires k < RULE_COUNT && KeepsFirst(c, k) && !Keeps(c, RuleAt(k))
    ensures Decide(c) == Penalty(RuleAt(k))
  {
    if k < 4 {
      FirstBrokenAmong(c, k);
    } else if k < 8 {
      FirstBrokenJoy(c, k);
    } else {
      FirstBrokenLast(c, k);
    }
  }

  /** The first four rules: length, character types, digits and math. */
  lemma FirstBrokenAmong(c: Checks, k: nat)
    requires 0 <= k < 4 && KeepsFirst(c, k) && !Keeps(c, RuleAt(k))
    ensures Decide(c) == Penalty(RuleAt(k))
  {
    if k > 0 { assert c.eightChars by { assert Keeps(c, RuleAt(0)); } }
    if k > 1 { assert c.charTypes by { assert Keeps(c, RuleAt(1)); } }
    if k > 2 { assert c.fiveDigits by { assert Keeps(c, RuleAt(2)); } }
    if k == 0 {
      assert !c.eightChars;
    } else if k == 1 {
      assert !c.charTypes;
    } else if k == 2 {
      assert !c.fiveDigits;
    } else if k == 3 {
      assert !c.math;
    }
  }

  /** The four joy rules. */
  lemma FirstBrokenJoy(c: Checks, k: nat)
    requires 4 <= k < 8 && KeepsFirst(c, k) && !Keeps(c, RuleAt(k))
    ensures Decide(c) == Penalty(RuleAt(k))
  {
    if k > 0 { assert c.eightChars by { assert Keeps(c, RuleAt(0)); } }
    if k > 1 { assert c.charTypes by { assert Keeps(c, RuleAt(1)); } }
    if k > 2 { assert c.fiveDigits by { assert Keeps(c, RuleAt(2)); } }
    if k > 3 { assert c.math by { assert Keeps(c, RuleAt(3)); } }
    if k > 4 { assert c.joyOrder by { assert Keeps(c, RuleAt(4)); } }
    if k > 5 { assert c.noJoyJoy by { assert Keeps(c, RuleAt(5)); } }
    if k > 6 { assert c.noJoyThenAlnum by { assert Keeps(c, RuleAt(6)); } }
    if k == 4 {
      assert !c.joyOrder;
    } else if k == 5 {
      assert !c.noJoyJoy;
    } else if k == 6 {
      assert !c.noJoyThenAlnum;
    } else if k == 7 {
      assert !c.noAlnumThenJoy;
    }
  }

  /** The sandwich, range, emoji and coffee rules. */
  lemma FirstBrokenLast(c: Checks, k: nat)
    requires 8 <= k < 12 && KeepsFirst(c, k) && !Keeps(c, RuleAt(k))
    ensures Decide(c) == Penalty(RuleAt(k))
  {
    if k > 0 { assert c.eightChars by { assert Keeps(c, RuleAt(0)); } }
    if k > 1 { assert c.charTypes by { assert Keeps(c, RuleAt(1)); } }
    if k > 2 { assert c.fiveDigits by { assert Keeps(c, RuleAt(2)); } }
    if k > 3 { assert c.math by { assert Keeps(c, RuleAt(3)); } }
    if k > 4 { assert c.joyOrder by { assert Keeps(c, RuleAt(4)); } }
    if k > 5 { assert c.noJoyJoy by { assert Keeps(c, RuleAt(5)); } }
    if k > 6 { assert c.noJoyThenAlnum by { assert Keeps(c, RuleAt(6)); } }
    if k > 7 { assert c.noAlnumThenJoy by { assert Keeps(c, RuleAt(7)); } }
    if k > 8 { assert c.sandwich by { assert Keeps(c, RuleAt(8)); } }
    if k > 9 { assert c.outranged by { assert Keeps(c, RuleAt(9)); } }
    if k > 10 { assert c.emoji by { assert Keeps(c, RuleAt(10)); } }
    if k == 8 {
      assert !c.sandwich;
    } else if k == 9 {
      assert !c.outranged;
    } else if k == 10 {
      assert !c.emoji;
    } else if k == 11 {
      assert !c.coffee;
    }
  }

  /** Checks that keep every rule win the game, and only such checks do. */
  lemma GameWonIffAllRulesKept(c: Checks)
    ensures Decide(c).status == Http.OK <==> KeepsFirst(c, RULE_COUNT)
    ensures KeepsFirst(c, RULE_COUNT) ==> Decide(c) == GameReply(Http.OK, AsStr(Verdict.Nice), "that's a nice password")
  {
    if KeepsFirst(c, RULE_COUNT) {
      AllKeptWins(c);
    } else {
      var k := FirstBroken(c, 0);
      FirstBrokenRuleDecides(c, k);
      PenaltyNotOk(RuleAt(k));
    }
  }

  lemma AllKeptWins(c: Checks)
    requires KeepsFirst(c, RULE_COUNT)
    ensures Decide(c) == GameReply(Http.OK, AsStr(Verdict.Nice), "that's a nice password")
  {
    assert c.eightChars by { assert Keeps(c, RuleAt(0)); }
    assert c.charTypes by { assert Keeps(c, RuleAt(1)); }
    assert c.fiveDigits by { assert Keeps(c, RuleAt(2)); }
    assert c.math by { assert Keeps(c, RuleAt(3)); }
    assert c.joyOrder by { assert Keeps(c, RuleAt(4)); }
    assert c.noJoyJoy by { assert Keeps(c, RuleAt(5)); }
    assert c.noJoyThenAlnum by { assert Keeps(c, RuleAt(6)); }
    assert c.noAlnumThenJoy by { assert Keeps(c, RuleAt(7)); }
    assert c.sandwich by { assert Keeps(c, RuleAt(8)); }
    assert c.outranged by { assert Keeps(c, RuleAt(9)); }
    assert c.emoji by { assert Keeps(c, RuleAt(10)); }
    assert c.coffee by { assert Keeps(c, RuleAt(11)); }
  }

  /** Every penalty is a refusal. */
  lemma PenaltyNotOk(rule: Rule)
    ensures Penalty(rule).status != Http.OK && Penalty(rule).result == AsStr(Verdict.Naughty)
  {
  }

  /** The first rule, from `i` on, that `c` breaks, when the rules before `i` are kept and some rule is broken. */
  function FirstBroken(c: Checks, i: nat): (k: nat)
    requires i <= RULE_COUNT && KeepsFirst(c, i) && !KeepsFirst(c, RULE_COUNT)
    ensures i <= k < RULE_COUNT && KeepsFirst(c, k) && !Keeps(c, RuleAt(k))
    decreases RULE_COUNT - i
  {
    if !Keeps(c, RuleAt(i)) then i else FirstBroken(c, i + 1)
  }

  /** Without a 'j', a later 'o' and a later 'y', a password past the math rule is not joyful enough. */
  lemma NoJoyNotJoyful(p: string, alpha: char -> bool, hashEndsWithA: bool)
    requires ReachesMath(p) && RunsParse(p) && SumI32(DigitRuns(p)) == 2023
    requires !exists i, j, k :: 0 <= i < j < k < |p| && p[i] == 'j' && p[j] == 'o' && p[k] == 'y'
    ensures Day15Game(p, alpha, hashEndsWithA) == Rejected(Http.NOT_ACCEPTABLE, "not joyful enough")
  {
  }

  /** Without a sandwich, a password past the joy rules is illegal. */
  lemma NoSandwichIllegal(p: string, alpha: char -> bool, hashEndsWithA: bool)
    requires ReachesMath(p) && RunsParse(p) && SumI32(DigitRuns(p)) == 2023
    requires JoyInOrder(p) && !Text.Contains(p, "joy joy") && !JoyThenAlnum(p) && !AlnumThenJoy(p)
    requires !exists i :: 0 <= i && i + 2 < |p| && alpha(p[i]) && p[i] == p[i + 2] && p[i + 1] != p[i]
    ensures Day15Game(p, alpha, hashEndsWithA) == Rejected(Http.UNAVAILABLE_FOR_LEGAL_REASONS, "illegal: no sandwich")
  {
  }
}
