/**
 A discrete amount of time and the numbering of its buckets (timeamount/timeamount.go).
 Times are nanoseconds after the Trendrr epoch, negative before it. The source computes seconds,
 minutes and hours in floating point; here these quotients are exact.
 */
module TimeAmounts {
  import opened Wrappers
  import opened Integers
  import opened Decimal

  datatype Timeframe = Milliseconds | Seconds | Minutes | Hours | Days

  datatype TimeAmount = TimeAmount(amount: int64, timeframe: Timeframe)

  function Name(tf: Timeframe): string {
    match tf
    case Milliseconds => "milli"
    case Seconds => "s"
    case Minutes => "min"
    case Hours => "hr"
    case Days => "d"
  }

  // ---- text form ----

  function ToString(ta: TimeAmount): string {
    Format(ta.amount) + Name(ta.timeframe)
  }

  predicate IsLetter(c: char) {
    'a' <= c <= 'z' || 'A' <= c <= 'Z'
  }

  /** The first maximal run of characters satisfying p, or the empty string. */
  function FirstRun(s: string, p: char -> bool): (r: string)
    ensures forall c <- r :: p(c)
  {
    if s == "" then ""
    else if p(s[0]) then LeadingRun(s, p)
    else FirstRun(s[1..], p)
  }

  function LeadingRun(s: string, p: char -> bool): (r: string)
    ensures forall c <- r :: p(c)
  {
    if s == "" || !p(s[0]) then "" else [s[0]] + LeadingRun(s[1..], p)
  }

  function ToLower(s: string): (r: string)
    ensures |r| == |s|
  {
    seq(|s|, i requires 0 <= i < |s| => if 'A' <= s[i] <= 'Z' then s[i] - 'A' + 'a' else s[i])
  }

  /** The timeframe a lower-case word starts like. */
  function TimeframeOf(str: string): Option<Timeframe> {
    if "mil" <= str then Some(Milliseconds)
    else if "s" <= str then Some(Seconds)
    else if "min" <= str then Some(Minutes)
    else if "h" <= str then Some(Hours)
    else if "d" <= str then Some(Days)
    else None
  }

  function Parse(text: string): Result<TimeAmount, string> {
    var digits := FirstRun(text, IsDigit);
    if digits == "" || DigitsValue(digits) >= TWO_TO_THE_63 then
      Err("Unable to parse TimeAmount")
    else
      match TimeframeOf(ToLower(FirstRun(text, IsLetter)))
      case Some(tf) => Ok(TimeAmount(DigitsValue(digits), tf))
      case None => Err("Unable to parse TimeAmount")
  }

  lemma {:induction false} LeadingRunOfConcat(s: string, t: string, p: char -> bool)
    requires (forall c <- s :: p(c)) && (t == "" || !p(t[0]))
    ensures LeadingRun(s + t, p) == s
  {
    if s == "" {
      assert s + t == t;
    } else {
      assert (s + t)[1..] == s[1..] + t;
      LeadingRunOfConcat(s[1..], t, p);
    }
  }

  lemma {:induction false} FirstRunAfter(s: string, t: string, p: char -> bool)
    requires forall c <- s :: !p(c)
    ensures FirstRun(s + t, p) == FirstRun(t, p)
  {
    if s == "" {
      assert s + t == t;
    } else {
      assert (s + t)[1..] == s[1..] + t;
      FirstRunAfter(s[1..], t, p);
    }
  }

  lemma RunsOfToString(digits: string, name: string, sign: string)
    requires digits != "" && AllDigits(digits) && (forall c <- name :: IsLetter(c)) && (sign == "" || sign == "-")
    requires name != ""
    ensures FirstRun(sign + digits + name, IsDigit) == digits
    ensures FirstRun(sign + digits + name, IsLetter) == name
  {
    var text := sign + digits + name;
    assert text == sign + (digits + name) && text == (sign + digits) + name;
    assert digits[0] in digits && name[0] in name;
    FirstRunAfter(sign, digits + name, IsDigit);
    LeadingRunOfConcat(digits, name, IsDigit);
    FirstRunAfter(sign + digits, name, IsLetter);
    LeadingRunOfConcat(name, "", IsLetter);
    assert name + "" == name;
  }

  lemma ParseOfName(tf: Timeframe)
    ensures Name(tf) != "" && (forall c <- Name(tf) :: IsLetter(c)) && TimeframeOf(ToLower(Name(tf))) == Some(tf)
  {
    assert ToLower(Name(tf)) == Name(tf);
    assert "mil"[0] == 'm' && "mil"[2] == 'l' && "min"[0] == 'm' && "min"[2] == 'n';
    assert "s"[0] == 's' && "hr"[0] == 'h' && "h"[0] == 'h' && "d"[0] == 'd';
    assert "mil" <= "milli" && "h" <= "hr";
  }

  /** Reading back the text form gives the same amount, exactly for the amounts that have no sign. */
  lemma ParseUndoesToString(ta: TimeAmount)
    ensures Parse(ToString(ta)) == Ok(ta) <==> ta.amount >= 0
  {
    var n: nat := if ta.amount < 0 then -(ta.amount as int) else ta.amount;
    var sign := if ta.amount < 0 then "-" else "";
    ValueOfFormat(n);
    ParseOfName(ta.timeframe);
    assert ToString(ta) == sign + FormatNat(n) + Name(ta.timeframe);
    RunsOfToString(FormatNat(n), Name(ta.timeframe), sign);
  }

  lemma {:induction false} NoRun(s: string, p: char -> bool)
    requires forall c <- s :: !p(c)
    ensures FirstRun(s, p) == ""
  {
    if s != "" {
      assert s[0] in s;
      NoRun(s[1..], p);
    }
  }

  lemma OneRun(before: string, run: string, after: string, p: char -> bool)
    requires (forall c <- before :: !p(c)) && run != "" && (forall c <- run :: p(c)) && (after == "" || !p(after[0]))
    ensures FirstRun(before + run + after, p) == run
  {
    assert run[0] in run && (run + after)[0] == run[0];
    FirstRunAfter(before, run + after, p);
    LeadingRunOfConcat(run, after, p);
    assert before + run + after == before + (run + after);
  }

  lemma LowerCase(word: string, i: nat, lower: char, upper: char)
    requires i < |word| && 'a' <= lower <= 'z' && upper == lower - 'a' + 'A'
    ensures ToLower(word)[i] == lower <==> word[i] == lower || word[i] == upper
  {
  }

  lemma StartsWithThree(s: string, t: string)
    requires |t| == 3
    ensures t <= s <==> |s| >= 3 && s[0] == t[0] && s[1] == t[1] && s[2] == t[2]
  {
  }

  lemma StartsWithOne(s: string, t: string)
    requires |t| == 1
    ensures t <= s <==> |s| >= 1 && s[0] == t[0]
  {
  }

  /** Which words name which timeframe, whatever their case. */
  lemma TimeframeOfWord(word: string)
    requires word != ""
    ensures TimeframeOf(ToLower(word)) ==
            if |word| >= 3 && word[0] in "mM" && word[1] in "iI" && word[2] in "lL" then Some(Milliseconds)
            else if word[0] in "sS" then Some(Seconds)
            else if |word| >= 3 && word[0] in "mM" && word[1] in "iI" && word[2] in "nN" then Some(Minutes)
            else if word[0] in "hH" then Some(Hours)
            else if word[0] in "dD" then Some(Days)
            else None
  {
    hide ToLower;
    LowerCase(word, 0, 'm', 'M');
    LowerCase(word, 0, 's', 'S');
    LowerCase(word, 0, 'h', 'H');
    LowerCase(word, 0, 'd', 'D');
    if |word| >= 3 {
      LowerCase(word, 1, 'i', 'I');
      LowerCase(word, 2, 'l', 'L');
      LowerCase(word, 2, 'n', 'N');
    }
    StartsWithThree(ToLower(word), "mil");
    StartsWithThree(ToLower(word), "min");
    StartsWithOne(ToLower(word), "s");
    StartsWithOne(ToLower(word), "h");
    StartsWithOne(ToLower(word), "d");
  }

  /** A text is read by its first run of digits and its first run of letters, wherever they stand. */
  lemma ParseMeaning(text: string, a: string, digits: string, b: string, c: string, word: string, d: string)
    requires text == a + digits + b && (forall x <- a :: !('0' <= x <= '9'))
    requires digits != "" && (forall x <- digits :: '0' <= x <= '9') && (b == "" || !('0' <= b[0] <= '9'))
    requires text == c + word + d && (forall x <- c :: !('a' <= x <= 'z' || 'A' <= x <= 'Z'))
    requires word != "" && (forall x <- word :: 'a' <= x <= 'z' || 'A' <= x <= 'Z')
    requires d == "" || !('a' <= d[0] <= 'z' || 'A' <= d[0] <= 'Z')
    ensures var n := DigitsValue(digits);
            Parse(text) ==
            if n >= TWO_TO_THE_63 then Err("Unable to parse TimeAmount")
            else if |word| >= 3 && word[0] in "mM" && word[1] in "iI" && word[2] in "lL"
            then Ok(TimeAmount(n, Milliseconds))
            else if word[0] in "sS" then Ok(TimeAmount(n, Seconds))
            else if |word| >= 3 && word[0] in "mM" && word[1] in "iI" && word[2] in "nN"
            then Ok(TimeAmount(n, Minutes))
            else if word[0] in "hH" then Ok(TimeAmount(n, Hours))
            else if word[0] in "dD" then Ok(TimeAmount(n, Days))
            else Err("Unable to parse TimeAmount")
  {
    hide FirstRun;
    hide TimeframeOf;
    hide ToLower;
    hide DigitsValue;
    OneRun(a, digits, b, IsDigit);
    OneRun(c, word, d, IsLetter);
    TimeframeOfWord(word);
  }

  /** The documented form, a number and a word with anything between them that is neither. */
  lemma ParseOfForm(digits: string, separator: string, word: string)
    requires digits != "" && (forall x <- digits :: '0' <= x <= '9') && DigitsValue(digits) < TWO_TO_THE_63
    requires forall x <- separator :: !('0' <= x <= '9' || 'a' <= x <= 'z' || 'A' <= x <= 'Z')
    requires word != "" && (forall x <- word :: 'a' <= x <= 'z' || 'A' <= x <= 'Z')
    ensures var r, n := Parse(digits + separator + word), DigitsValue(digits);
      && (r == Ok(TimeAmount(n, Milliseconds)) <==>
            |word| >= 3 && word[0] in "mM" && word[1] in "iI" && word[2] in "lL")
      && (r == Ok(TimeAmount(n, Seconds)) <==> word[0] in "sS")
      && (r == Ok(TimeAmount(n, Minutes)) <==>
            |word| >= 3 && word[0] in "mM" && word[1] in "iI" && word[2] in "nN")
      && (r == Ok(TimeAmount(n, Hours)) <==> word[0] in "hH")
      && (r == Ok(TimeAmount(n, Days)) <==> word[0] in "dD")
      && (r.Ok? ==> r.value.amount == n)
  {
    hide DigitsValue;
    hide Parse;
    var text := digits + separator + word;
    assert text == "" + digits + (separator + word) && text == (digits + separator) + word + "";
    assert separator != "" ==> separator[0] in separator;
    assert word[0] in word && (separator == "" ==> (separator + word)[0] == word[0]);
    assert separator != "" ==> (separator + word)[0] == separator[0];
    ParseMeaning(text, "", digits, separator + word, digits + separator, word, "");
  }

  /** A text without a number or without a word is refused. */
  lemma ParseOfNothing(text: string)
    requires (forall x <- text :: !('0' <= x <= '9')) || (forall x <- text :: !('a' <= x <= 'z' || 'A' <= x <= 'Z'))
    ensures Parse(text) == Err("Unable to parse TimeAmount")
  {
    hide FirstRun;
    if forall x <- text :: !IsDigit(x) {
      NoRun(text, IsDigit);
    } else {
      NoRun(text, IsLetter);
      assert ToLower("") == "";
    }
  }

  // ---- bucket numbers ----

  /** The unit written in a duration string, and how many of it make one of the timeframe. */
  function BaseUnit(tf: Timeframe): (u: int)
    ensures u > 0
  {
    match tf
    case Milliseconds => 1_000_000
    case Seconds => 1_000_000_000
    case Minutes => 60_000_000_000
    case Hours => 3600_000_000_000
    case Days => 3600_000_000_000
  }

  function UnitsPer(tf: Timeframe): (n: int)
    ensures n > 0
  {
    if tf.Days? then 24 else 1
  }

  /** time.Sub of the epoch: a difference too large for a duration becomes the largest one. */
  function SinceEpoch(t: int): int64 {
    if t < -TWO_TO_THE_63 then -TWO_TO_THE_63 else if t < TWO_TO_THE_63 then t else TWO_TO_THE_63 - 1
  }

  /** The number of whole timeframes since the epoch. */
  function Frames(tf: Timeframe, t: int): int {
    TruncDiv(SinceEpoch(t), BaseUnit(tf) * UnitsPer(tf))
  }

  function ToTrendrrEpoch(ta: TimeAmount, t: int): int
    requires ta.amount != 0
  {
    if ta.amount > 0 then TruncDiv(Frames(ta.timeframe, t), ta.amount)
    else -TruncDiv(Frames(ta.timeframe, t), -(ta.amount as int))
  }

  /** The duration written as n units; one that does not fit is reported as an error and taken as 0. */
  function DurationOf(n: int64, unit: int): int64 {
    if FitsInt64(n * unit) then n * unit else 0
  }

  function FromTrendrrEpoch(ta: TimeAmount, epoch: int64): int {
    var amount := Wrap64(ta.amount * UnitsPer(ta.timeframe));
    DurationOf(Wrap64(amount * epoch), BaseUnit(ta.timeframe))
  }

  /** The exact length of one bucket in nanoseconds. */
  function BucketNanos(ta: TimeAmount): int {
    ta.amount * UnitsPer(ta.timeframe) * BaseUnit(ta.timeframe)
  }

  lemma BucketsByLength(ta: TimeAmount, t: int)
    requires ta.amount > 0
    ensures BucketNanos(ta) > 0
    ensures ToTrendrrEpoch(ta, t) == TruncDiv(SinceEpoch(t), BucketNanos(ta))
  {
    var u := BaseUnit(ta.timeframe) * UnitsPer(ta.timeframe);
    TruncDivTwice(SinceEpoch(t), u, ta.amount);
    assert u * ta.amount == BucketNanos(ta);
  }

  /** The lengths: a thousand milliseconds to the second, sixty seconds to the minute, sixty minutes to the
      hour, 24 hours to the day. */
  lemma BucketLengths(n: int64)
    ensures BucketNanos(TimeAmount(n, Milliseconds)) == 1_000_000 * n
    ensures BucketNanos(TimeAmount(n, Seconds)) == 1000 * BucketNanos(TimeAmount(n, Milliseconds))
    ensures BucketNanos(TimeAmount(n, Minutes)) == 60 * BucketNanos(TimeAmount(n, Seconds))
    ensures BucketNanos(TimeAmount(n, Hours)) == 60 * BucketNanos(TimeAmount(n, Minutes))
    ensures BucketNanos(TimeAmount(n, Days)) == 24 * BucketNanos(TimeAmount(n, Hours))
  {
  }

  /** A negative amount numbers the buckets of its absolute value the other way round. */
  lemma NegativeAmount(ta: TimeAmount, t: int)
    requires -TWO_TO_THE_63 < ta.amount < 0
    ensures ToTrendrrEpoch(ta, t) == -ToTrendrrEpoch(ta.(amount := -(ta.amount as int)), t)
  {
  }

  /** Bucket numbers never go back as time goes on. */
  lemma ToTrendrrEpochMonotone(ta: TimeAmount, t1: int, t2: int)
    requires ta.amount > 0 && t1 <= t2
    ensures ToTrendrrEpoch(ta, t1) <= ToTrendrrEpoch(ta, t2)
  {
    BucketsByLength(ta, t1);
    BucketsByLength(ta, t2);
    TruncDivMonotone(SinceEpoch(t1), SinceEpoch(t2), BucketNanos(ta));
  }

  /** When one amount is k times another, its bucket number is the other's divided by k. */
  lemma CoarseBucketFromFine(fine: TimeAmount, coarse: TimeAmount, k: int, t: int)
    requires fine.amount > 0 && coarse.amount > 0 && k > 0 && BucketNanos(coarse) == BucketNanos(fine) * k
    ensures ToTrendrrEpoch(coarse, t) == TruncDiv(ToTrendrrEpoch(fine, t), k)
  {
    BucketsByLength(fine, t);
    BucketsByLength(coarse, t);
    TruncDivTwice(SinceEpoch(t), BucketNanos(fine), k);
  }

  /** Where the product fits, the start of a bucket is exactly its number of bucket lengths. */
  lemma FromTrendrrEpochInRange(ta: TimeAmount, epoch: int64)
    requires ta.amount > 0 && FitsInt64(BucketNanos(ta) * epoch)
    ensures FromTrendrrEpoch(ta, epoch) == BucketNanos(ta) * epoch
  {
    var m, u := ta.amount * UnitsPer(ta.timeframe), BaseUnit(ta.timeframe);
    assert BucketNanos(ta) * epoch == (m * epoch) * u;
    if epoch == 0 {
    } else {
      FactorFits(m * epoch, u);
      assert epoch * m == m * epoch;
      FactorFits2(m, epoch);
    }
  }

  lemma FactorFits(a: int, u: int)
    requires u > 0 && FitsInt64(a * u)
    ensures FitsInt64(a)
  {
    if a >= 0 {
      MulMonotone(1, u, a);
    } else {
      MulMonotone(1, u, -a);
      NegMul(a, u);
      assert u * (-a) == -(a * u);
    }
  }

  lemma FactorFits2(m: int, e: int)
    requires m > 0 && e != 0 && FitsInt64(m * e)
    ensures m <= TWO_TO_THE_63
  {
    if e > 0 {
      MulMonotone(1, e, m);
    } else {
      MulMonotone(1, -e, m);
      NegMul(e, m);
    }
  }

  /** A multiple of 2^64 closer than 2^63 to zero is zero. */
  lemma NoTurn(x: int, n: int64, p: int)
    requires n == Wrap64(x) && p == x && -TWO_TO_THE_63 <= p - n <= TWO_TO_THE_63
    ensures n == p
  {
    var k := Wrap64Differs(x);
  }

  lemma NoWrapIfQuotient(n: int64, m: int, epoch: int64)
    requires m > 0 && epoch != 0 && n == Wrap64(Wrap64(m) * epoch) && TruncDiv(n, m) == epoch
    ensures n == epoch * m
  {
    hide Wrap64;
    hide TruncDiv;
    var p := epoch * m;
    TruncDivMeaning(n, m, epoch);
    assert (epoch + 1) * m == p + m && (epoch - 1) * m == p - m;
    if epoch > 0 {
      MulMonotone(1, epoch, m);
    } else {
      MulMonotone(epoch, -1, m);
      assert (-1) * m == -m;
    }
    assert m <= TWO_TO_THE_63;
    if m < TWO_TO_THE_63 {
      assert m * epoch == p;
      NoTurn(m * epoch, n, p);
    }
  }

  /** What the start of a bucket is when the product does not fit: not in that bucket. */
  lemma OutOfRangeStart(m: int, u: int, epoch: int64)
    requires m > 0 && u > 0 && !FitsInt64((epoch * m) * u)
    ensures m * u > 0 && TruncDiv(DurationOf(Wrap64(Wrap64(m) * epoch), u), m * u) != epoch
  {
    hide Wrap64;
    var n := Wrap64(Wrap64(m) * epoch);
    MulMonotone(1, m, u);
    assert epoch != 0;
    if FitsInt64(n * u) {
      TruncDivExact(n, u);
      TruncDivTwice(n * u, u, m);
      assert u * m == m * u;
      if TruncDiv(n, m) == epoch {
        NoWrapIfQuotient(n, m, epoch);
      }
    } else {
      TruncDivExact(0, m * u);
    }
  }

  /** The start of a bucket is numbered as that bucket, before and after the epoch alike, exactly for
      the buckets whose start is a representable duration from the epoch. */
  lemma BucketStartRoundTrip(ta: TimeAmount, epoch: int64)
    requires ta.amount > 0
    ensures ToTrendrrEpoch(ta, FromTrendrrEpoch(ta, epoch)) == epoch <==> FitsInt64(BucketNanos(ta) * epoch)
  {
    hide TruncDiv;
    hide Wrap64;
    hide ToTrendrrEpoch;
    var m, u := ta.amount * UnitsPer(ta.timeframe), BaseUnit(ta.timeframe);
    var t := FromTrendrrEpoch(ta, epoch);
    BucketsByLength(ta, t);
    assert BucketNanos(ta) == m * u;
    MulSwap(m, u, epoch);
    if FitsInt64(BucketNanos(ta) * epoch) {
      FromTrendrrEpochInRange(ta, epoch);
      TruncDivExact(epoch, BucketNanos(ta));
      assert BucketNanos(ta) * epoch == epoch * BucketNanos(ta);
    } else {
      OutOfRangeStart(m, u, epoch);
    }
  }

  lemma MulSwap(m: int, u: int, e: int)
    ensures (m * u) * e == (e * m) * u
  {
    assert (m * u) * e == e * (m * u);
  }

  /** A time at or after the epoch lies in its bucket; before the epoch the bucket is open below. */
  lemma TimeLiesInItsBucket(ta: TimeAmount, t: int64)
    requires ta.amount > 0
    ensures var e := ToTrendrrEpoch(ta, t);
      && (t >= 0 && FitsInt64(BucketNanos(ta) * (e + 1)) ==> Within(ta, e, t, e + 1))
      && (t <= 0 && FitsInt64(BucketNanos(ta) * (e - 1)) ==> WithinBelow(ta, e - 1, t, e))
  {
    hide TruncDiv;
    hide BucketNanos;
    hide FromTrendrrEpoch;
    hide ToTrendrrEpoch;
    var e, b := ToTrendrrEpoch(ta, t), BucketNanos(ta);
    BucketsByLength(ta, t);
    TruncDivMeaning(t, b, e);
    StartFits(ta, e);
    StartFits(ta, e + 1);
    StartFits(ta, e - 1);
    assert (e + 1) * b == e * b + b && (e - 1) * b == e * b - b;
    if t >= 0 {
      if e < 0 {
        MulMonotone(e + 1, 0, b);
      } else {
        MulMonotone(0, e, b);
      }
    }
    if t <= 0 {
      if e > 0 {
        MulMonotone(0, e - 1, b);
      } else {
        MulMonotone(e, 0, b);
      }
    }
  }

  predicate Within(ta: TimeAmount, e: int, t: int, e': int) {
    FitsInt64(e) && FitsInt64(e') && FromTrendrrEpoch(ta, e) <= t < FromTrendrrEpoch(ta, e')
  }

  predicate WithinBelow(ta: TimeAmount, e: int, t: int, e': int) {
    FitsInt64(e) && FitsInt64(e') && FromTrendrrEpoch(ta, e) < t <= FromTrendrrEpoch(ta, e')
  }

  lemma StartFits(ta: TimeAmount, e: int)
    requires ta.amount > 0
    ensures BucketNanos(ta) * e == e * BucketNanos(ta)
    ensures FitsInt64(e * BucketNanos(ta)) ==> FitsInt64(e) && FromTrendrrEpoch(ta, e) == e * BucketNanos(ta)
  {
    BucketsByLength(ta, 0);
    if FitsInt64(e * BucketNanos(ta)) {
      FactorFits(e, BucketNanos(ta));
      FromTrendrrEpochInRange(ta, e);
    }
  }
}
