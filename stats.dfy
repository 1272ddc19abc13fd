/** The stat counters: splitting a stat's text into its digits and the rest,
    the decimal value of the digits, the interval loop that counts up to the
    value, and the observer whose intersecting entries run a stat's counter
    and stop observing it. Values are exact
    reals; the interval timer and the visibility observer become explicit
    calls. */
module Stats {
  import Pages

  datatype Option<T> = None | Some(value: T)

  /** The characters `\d` matches: the ASCII digits. */
  predicate IsDigit(c: char) {
    '0' <= c <= '9'
  }

  predicate AllDigits(s: string) {
    forall k :: 0 <= k < |s| ==> IsDigit(s[k])
  }

  predicate NoDigits(s: string) {
    forall k :: 0 <= k < |s| ==> !IsDigit(s[k])
  }

  /** `text.replace(/\D/g, '')`: the digits of `text`, in order. */
  function Digits(text: string): (d: string)
    ensures AllDigits(d) && |d| <= |text|
    decreases |text|
  {
    if text == [] then []
    else (if IsDigit(text[0]) then [text[0]] else []) + Digits(text[1..])
  }

  /** `text.replace(/\d/g, '')`: the other characters of `text`, in order. */
  function NonDigits(text: string): (s: string)
    ensures NoDigits(s) && |s| <= |text|
    decreases |text|
  {
    if text == [] then []
    else (if IsDigit(text[0]) then [] else [text[0]]) + NonDigits(text[1..])
  }

  /** The two filters partition the text: their lengths add up, and together
      they hold each character of the text exactly once. */
  lemma {:induction false} DigitsPartition(text: string)
    ensures |Digits(text)| + |NonDigits(text)| == |text|
    ensures multiset(Digits(text)) + multiset(NonDigits(text)) == multiset(text)
    decreases |text|
  {
    if text != [] {
      DigitsPartition(text[1..]);
      assert text == [text[0]] + text[1..];
    }
  }

  /** The digit filter distributes over concatenation. */
  lemma {:induction false} DigitsAppend(a: string, b: string)
    ensures Digits(a + b) == Digits(a) + Digits(b)
    decreases |a|
  {
    if a == [] {
      assert a + b == b;
    } else {
      var head := if IsDigit(a[0]) then [a[0]] else [];
      assert (a + b)[0] == a[0] && (a + b)[1..] == a[1..] + b;
      assert Digits(a + b) == head + Digits(a[1..] + b);
      DigitsAppend(a[1..], b);
      assert Digits(a) == head + Digits(a[1..]);
    }
  }

  /** The non-digit filter distributes over concatenation. */
  lemma {:induction false} NonDigitsAppend(a: string, b: string)
    ensures NonDigits(a + b) == NonDigits(a) + NonDigits(b)
    decreases |a|
  {
    if a == [] {
      assert a + b == b;
    } else {
      var head := if IsDigit(a[0]) then [] else [a[0]];
      assert (a + b)[0] == a[0] && (a + b)[1..] == a[1..] + b;
      assert NonDigits(a + b) == head + NonDigits(a[1..] + b);
      NonDigitsAppend(a[1..], b);
      assert NonDigits(a) == head + NonDigits(a[1..]);
    }
  }

  /** A digit string is its own digit part and has an empty rest. */
  lemma {:induction false} FiltersOfDigits(d: string)
    requires AllDigits(d)
    ensures Digits(d) == d && NonDigits(d) == []
    decreases |d|
  {
    if d != [] {
      FiltersOfDigits(d[1..]);
    }
  }

  /** A digit-free string is its own rest and has no digit part. */
  lemma {:induction false} FiltersOfNonDigits(s: string)
    requires NoDigits(s)
    ensures Digits(s) == [] && NonDigits(s) == s
    decreases |s|
  {
    if s != [] {
      FiltersOfNonDigits(s[1..]);
    }
  }

  /** For a text made of digits followed by non-digits, the digit part is the
      leading number and the rest is the trailing suffix. */
  lemma FiltersOfNumberThenSuffix(d: string, suffix: string)
    requires AllDigits(d) && NoDigits(suffix)
    ensures Digits(d + suffix) == d && NonDigits(d + suffix) == suffix
  {
    DigitsAppend(d, suffix);
    NonDigitsAppend(d, suffix);
    FiltersOfDigits(d);
    FiltersOfNonDigits(suffix);
  }

  function DigitValue(c: char): (v: nat)
    requires IsDigit(c)
    ensures v < 10
  {
    c as int - '0' as int
  }

  function DigitChar(v: nat): (c: char)
    requires v < 10
    ensures IsDigit(c) && DigitValue(c) == v
  {
    ('0' as int + v) as char
  }

  /** The decimal value of a digit string (0 for the empty string). */
  function DecimalValue(d: string): nat
    requires AllDigits(d)
    decreases |d|
  {
    if d == [] then 0 else DecimalValue(d[..|d| - 1]) * 10 + DigitValue(d[|d| - 1])
  }

  /** `parseInt` of a digit string: its value, or NaN (`None`) when empty. */
  function ParseDigits(d: string): (r: Option<nat>)
    requires AllDigits(d)
    ensures r.None? <==> d == []
    ensures r.Some? ==> r.value == DecimalValue(d)
  {
    if d == [] then None else Some(DecimalValue(d))
  }

  /** A digit string as a number's string form writes it: non-empty, and no
      leading zero unless it is `0` itself. */
  predicate Canonical(d: string) {
    |d| > 0 && AllDigits(d) && (d[0] == '0' ==> |d| == 1)
  }

  /** The decimal string form of a non-negative integer. */
  function NatToString(n: nat): (s: string)
    ensures Canonical(s)
    decreases n
  {
    if n < 10 then [DigitChar(n)] else NatToString(n / 10) + [DigitChar(n % 10)]
  }

  /** Reading back the string form of a number gives the number. */
  lemma {:induction false} DecimalValueOfNatToString(n: nat)
    ensures DecimalValue(NatToString(n)) == n
    decreases n
  {
    if n >= 10 {
      DecimalValueOfNatToString(n / 10);
      var s := NatToString(n);
      assert s[..|s| - 1] == NatToString(n / 10);
    }
  }

  /** A digit string that does not start with `0` has a positive value. */
  lemma {:induction false} LeadingNonZeroIsPositive(d: string)
    requires |d| > 0 && AllDigits(d) && d[0] != '0'
    ensures DecimalValue(d) >= 1
    decreases |d|
  {
    if |d| > 1 {
      LeadingNonZeroIsPositive(d[..|d| - 1]);
    }
  }

  /** Writing out the value of a canonical digit string gives the string back. */
  lemma {:induction false} NatToStringOfDecimalValue(d: string)
    requires Canonical(d)
    ensures NatToString(DecimalValue(d)) == d
    decreases |d|
  {
    if |d| > 1 {
      var init := d[..|d| - 1];
      LeadingNonZeroIsPositive(init);
      NatToStringOfDecimalValue(init);
      assert init + [d[|d| - 1]] == d;
    }
  }

  /** A stat's parsed text: the target number and the suffix. */
  datatype Stat = Stat(target: nat, suffix: string)

  /** The parse at script.js:89-90: NaN (`None`) when the text has no digit. */
  function ParseStat(text: string): (r: Option<Stat>)
    ensures r.None? <==> Digits(text) == []
    ensures r.Some? ==> r.value.target == DecimalValue(Digits(text))
    ensures r.Some? ==> r.value.suffix == NonDigits(text) && NoDigits(r.value.suffix)
  {
    match ParseDigits(Digits(text))
    case None => None
    case Some(n) => Some(Stat(n, NonDigits(text)))
  }

  /** A stat written as a number followed by a digit-free suffix parses to
      that number and that suffix. */
  lemma ParseNumberThenSuffix(n: nat, suffix: string)
    requires NoDigits(suffix)
    ensures ParseStat(NatToString(n) + suffix) == Some(Stat(n, suffix))
  {
    FiltersOfNumberThenSuffix(NatToString(n), suffix);
    DecimalValueOfNatToString(n);
  }

  /** The amount each tick adds: a fiftieth of the target. */
  function Increment(target: nat): (step: real)
    ensures step >= 0.0 && 50.0 * step == target as real
  {
    target as real / 50.0
  }

  /** The value and whether the interval stops after one tick. */
  datatype Tick = Tick(value: real, stopped: bool)

  /** One interval callback (script.js:96-100): add the increment; at or past
      the target, clamp to the target and stop. */
  function Step(value: real, target: nat): (t: Tick)
    requires 0.0 <= value <= target as real
    ensures value <= t.value <= target as real
    ensures t.stopped <==> value + Increment(target) >= target as real
    ensures t.stopped <==> t.value == target as real
    ensures !t.stopped ==> t.value == value + Increment(target)
  {
    var next := value + Increment(target);
    if next >= target as real then Tick(target as real, true) else Tick(next, false)
  }

  /** The text a tick writes (script.js:101): the floored value followed by
      the suffix; with a digit-free suffix it parses back to the floored
      value and the suffix. */
  function Shown(value: real, suffix: string): (text: string)
    requires value >= 0.0
    ensures |text| > |suffix| && Pages.EndsWith(text, suffix)
    ensures NoDigits(suffix) ==> ParseStat(text) == Some(Stat(value.Floor, suffix))
  {
    var n: nat := value.Floor;
    assert NoDigits(suffix) ==> ParseStat(NatToString(n) + suffix) == Some(Stat(n, suffix)) by {
      if NoDigits(suffix) {
        ParseNumberThenSuffix(n, suffix);
      }
    }
    NatToString(n) + suffix
  }

  /** The value after `ticks` increments that did not reach the target. */
  function Progress(ticks: nat, target: nat): real
    decreases ticks
  {
    if ticks == 0 then 0.0 else Progress(ticks - 1, target) + Increment(target)
  }

  /** `ticks` increments add up to `ticks` fiftieths of the target. */
  lemma {:induction false} ProgressIsMultiple(ticks: nat, target: nat)
    ensures Progress(ticks, target) == ticks as real * Increment(target)
    decreases ticks
  {
    if ticks > 0 {
      ProgressIsMultiple(ticks - 1, target);
    }
  }

  /** A value still below the target was reached in fewer than fifty ticks. */
  lemma BelowTargetWithinFifty(ticks: nat, target: nat)
    requires Progress(ticks, target) < target as real
    ensures ticks < 50
  {
    ProgressIsMultiple(ticks, target);
  }

  /** Flooring is monotone. */
  lemma FloorMonotone(a: real, b: real)
    requires a <= b
    ensures a.Floor <= b.Floor
  {
  }

  /** The floored values written so far never decrease and never pass the
      current value. */
  ghost predicate Climbing(shown: seq<nat>, value: real) {
    (forall k :: 0 <= k < |shown| ==> shown[k] <= value.Floor) &&
    (forall j, k :: 0 <= j <= k < |shown| ==> shown[j] <= shown[k])
  }

  /** The first `n` floored values are those of 1, 2, ... increments. */
  ghost predicate OnSchedule(shown: seq<nat>, n: nat, target: nat)
    requires n <= |shown|
  {
    forall k :: 0 <= k < n ==> shown[k] == Progress(k + 1, target).Floor
  }

  /** Writing the floor of a value no smaller than the last keeps the
      written values climbing. */
  lemma ClimbingAppend(shown: seq<nat>, value: real, next: real)
    requires 0.0 <= value <= next && Climbing(shown, value)
    ensures Climbing(shown + [next.Floor], next)
  {
    FloorMonotone(value, next);
  }

  /** The loop state while the interval runs: `ticks` increments so far,
      all below the target, each written on schedule. */
  ghost predicate Running(shown: seq<nat>, value: real, ticks: nat, target: nat) {
    value == Progress(ticks, target) && 0.0 <= value <= target as real && ticks < 50 &&
    (ticks > 0 ==> value < target as real) &&
    |shown| == ticks && OnSchedule(shown, |shown|, target) && Climbing(shown, value)
  }

  /** The loop state once the interval has stopped: the last value written is
      the target, the ones before it on schedule and below the target, and
      the increments added reach the target. */
  ghost predicate Finished(shown: seq<nat>, target: nat) {
    |shown| > 0 && shown[|shown| - 1] == target &&
    (forall k :: 0 <= k < |shown| - 1 ==> shown[k] < target) &&
    Progress(|shown|, target) >= target as real &&
    OnSchedule(shown, |shown| - 1, target) && Climbing(shown, target as real)
  }

  /** One tick from a running state writes the next floored value and leaves
      the loop running, or finished when the target is reached. */
  lemma TickPreserves(shown: seq<nat>, value: real, ticks: nat, target: nat)
    requires Running(shown, value, ticks, target)
    ensures var t := Step(value, target);
      var next := shown + [t.value.Floor];
      if t.stopped then Finished(next, target) else Running(next, t.value, ticks + 1, target)
  {
    var t := Step(value, target);
    var next := shown + [t.value.Floor];
    ClimbingAppend(shown, value, t.value);
    assert OnSchedule(next, |shown|, target);
    if !t.stopped {
      BelowTargetWithinFifty(ticks + 1, target);
      assert OnSchedule(next, |next|, target);
    }
  }

  /** The counter's interval loop (script.js:92-102), driven tick by tick.
      `shown` are the floored values written, `frames` the texts written. */
  method Animate(target: nat, suffix: string) returns (shown: seq<nat>, frames: seq<string>)
    ensures |frames| == |shown| > 0
    ensures forall k :: 0 <= k < |frames| ==> frames[k] == NatToString(shown[k]) + suffix
    ensures forall k :: 0 <= k < |shown| ==> shown[k] <= target
    ensures forall j, k :: 0 <= j <= k < |shown| ==> shown[j] <= shown[k]
    ensures forall k :: 0 <= k < |shown| - 1 ==> shown[k] == Progress(k + 1, target).Floor
    ensures forall k :: 0 <= k < |shown| - 1 ==> shown[k] < target
    ensures Progress(|shown|, target) >= target as real
    ensures shown[|shown| - 1] == target
    ensures frames[|frames| - 1] == NatToString(target) + suffix
  {
    var value: real := 0.0;
    var stopped := false;
    shown, frames := [], [];
    ghost var ticks: nat := 0;
    while !stopped
      invariant |frames| == |shown|
      invariant forall k :: 0 <= k < |frames| ==> frames[k] == NatToString(shown[k]) + suffix
      invariant stopped ==> Finished(shown, target)
      invariant !stopped ==> Running(shown, value, ticks, target)
      decreases 50 - ticks
    {
      TickPreserves(shown, value, ticks, target);
      var t := Step(value, target);
      value, stopped := t.value, t.stopped;
      shown := shown + [value.Floor];
      frames := frames + [Shown(value, suffix)];
      ticks := ticks + 1;
    }
  }

  /** The text a stat shows once its counter has stopped (script.js:98-101):
      it ends with the stat's suffix and parses back to the same stat. */
  function FinalText(text: string): (final: string)
    requires Digits(text) != []
    ensures Pages.EndsWith(final, NonDigits(text))
    ensures ParseStat(final) == ParseStat(text)
  {
    ParseNumberThenSuffix(DecimalValue(Digits(text)), NonDigits(text));
    NatToString(DecimalValue(Digits(text))) + NonDigits(text)
  }

  /** A stat written as a canonical number followed by a digit-free suffix,
      such as `250+`, ends showing exactly its original text. */
  lemma FinalTextRestoresNumberThenSuffix(d: string, suffix: string)
    requires Canonical(d) && NoDigits(suffix)
    ensures FinalText(d + suffix) == d + suffix
  {
    FiltersOfNumberThenSuffix(d, suffix);
    NatToStringOfDecimalValue(d);
  }

  /** Conversely, a stat whose text survives the animation unchanged is a
      canonical number followed by a digit-free suffix. */
  lemma FinalTextUnchangedOnlyForNumberThenSuffix(text: string)
    requires Digits(text) != [] && FinalText(text) == text
    ensures exists d, suffix :: Canonical(d) && NoDigits(suffix) && text == d + suffix
  {
    assert text == NatToString(DecimalValue(Digits(text))) + NonDigits(text);
  }

  /** Running a counter again on the text it ended with changes nothing. */
  lemma FinalTextIdempotent(text: string)
    requires Digits(text) != []
    ensures Digits(FinalText(text)) != [] && FinalText(FinalText(text)) == FinalText(text)
  {
    FinalTextRestoresNumberThenSuffix(NatToString(DecimalValue(Digits(text))), NonDigits(text));
  }

  /** `250+` parses to 250 with suffix `+`. */
  lemma ParseExample()
    ensures ParseStat("250+") == Some(Stat(250, "+"))
  {
    assert NatToString(2) == "2";
    assert NatToString(25) == NatToString(2) + "5" == "25";
    assert NatToString(250) == NatToString(25) + "0" == "250";
    assert NoDigits("+");
    ParseNumberThenSuffix(250, "+");
    assert NatToString(250) + "+" == "250+";
  }

  /** Non-digits before the number also land in the suffix: a digit-free
      prefix followed by a canonical number ends showing the number and then
      the prefix. */
  lemma PrefixMovesToEnd(prefix: string, d: string)
    requires NoDigits(prefix) && Canonical(d)
    ensures Digits(prefix + d) != [] && FinalText(prefix + d) == d + prefix
  {
    DigitsAppend(prefix, d);
    NonDigitsAppend(prefix, d);
    FiltersOfDigits(d);
    FiltersOfNonDigits(prefix);
    assert Digits(prefix + d) == d;
    assert NonDigits(prefix + d) == prefix;
    NatToStringOfDecimalValue(d);
    assert NatToString(DecimalValue(d)) == d;
  }

  /** `$50` ends showing `50$`. */
  lemma PrefixExample()
    ensures FinalText("$50") == "50$"
  {
    assert "$50" == "$" + "50" && "50$" == "50" + "$";
    PrefixMovesToEnd("$", "50");
  }

  /** The visibility observer of `animateStats` (script.js:82-110): the stat
      elements' texts and whether each is still observed. */
  class StatObserver {
    var texts: seq<string>
    var observed: seq<bool>

    ghost predicate Valid()
      reads this
    {
      |observed| == |texts|
    }

    /** `stats.forEach(stat => observer.observe(stat))`. */
    constructor (initial: seq<string>)
      ensures Valid() && texts == initial
      ensures forall k :: 0 <= k < |observed| ==> observed[k]
    {
      texts := initial;
      observed := seq(|initial|, _ => true);
    }

    /** One observer entry for stat `i` (script.js:86-105): an intersecting
        entry runs the stat's counter to the end and unobserves the stat; a
        non-intersecting entry changes nothing. The handler does not ask
        whether the stat is still observed, so a second intersecting entry in
        the same batch runs the counter again. */
    method OnEntry(i: nat, isIntersecting: bool)
      requires Valid() && i < |texts|
      requires isIntersecting ==> Digits(texts[i]) != []
      modifies this
      ensures Valid()
      ensures observed == old(observed)[i := old(observed[i]) && !isIntersecting]
      ensures texts == if isIntersecting then old(texts)[i := FinalText(old(texts[i]))] else old(texts)
    {
      if isIntersecting {
        var finalValue := texts[i];
        var numericValue := DecimalValue(Digits(finalValue));
        var suffix := NonDigits(finalValue);
        var shown, frames := Animate(numericValue, suffix);
        texts := texts[i := frames[|frames| - 1]];
        observed := observed[i := false];
      }
    }
  }

  /** The second `DOMContentLoaded` handler (script.js:113-118): only the
      homepage starts the counters. */
  method OnLoad(path: string, texts: seq<string>) returns (observer: StatObserver?)
    ensures observer == null <==> !Pages.IsHomePage(path)
    ensures observer != null ==> fresh(observer) && observer.Valid() && observer.texts == texts
    ensures observer != null ==> forall k :: 0 <= k < |observer.observed| ==> observer.observed[k]
  {
    if Pages.IsHomePage(path) {
      observer := new StatObserver(texts);
    } else {
      observer := null;
    }
  }
}
