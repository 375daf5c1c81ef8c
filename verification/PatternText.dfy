/**
 Blink patterns as text: decimal delays separated by ':' in a NUL-terminated buffer, read with strtol
 (base 10, 32-bit long, as section 7.22.1.4 of ISO C11 describes it).
 */
module PatternText {

  type Text = seq<int>

  const NUL := 0
  const COLON := 58
  const MINUS := 45
  const PLUS := 43
  const LONG_MAX := 0x7fff_ffff
  const LONG_MIN := -0x8000_0000

  predicate IsSpace(b: int) {
    b == 32 || 9 <= b <= 13
  }

  predicate IsDigit(b: int) {
    48 <= b <= 57
  }

  predicate Terminated(buf: Text) {
    |buf| > 0 && buf[|buf| - 1] == NUL
  }

  function SkipSpaces(buf: Text, i: nat): (j: nat)
    requires Terminated(buf) && i < |buf|
    ensures i <= j < |buf|
    decreases |buf| - i
  {
    if IsSpace(buf[i]) then SkipSpaces(buf, i + 1) else i
  }

  function SkipDigits(buf: Text, i: nat): (j: nat)
    requires Terminated(buf) && i < |buf|
    ensures i <= j < |buf| && !IsDigit(buf[j])
    ensures forall k :: i <= k < j ==> IsDigit(buf[k])
    decreases |buf| - i
  {
    if IsDigit(buf[i]) then SkipDigits(buf, i + 1) else i
  }

  function DigitsValue(ds: Text): int {
    if ds == [] then 0 else DigitsValue(ds[..|ds| - 1]) * 10 + ds[|ds| - 1] - 48
  }

  function Clamp(n: int): int {
    if n > LONG_MAX then LONG_MAX else if n < LONG_MIN then LONG_MIN else n
  }

  /** The value strtol returns and where it leaves the end pointer: at the start if there is no number. */
  function Strtol(buf: Text, cur: nat): (r: (int, nat))
    requires Terminated(buf) && cur < |buf|
    ensures cur <= r.1 < |buf|
    ensures r.1 == cur ==> r.0 == 0
  {
    var i := SkipSpaces(buf, cur);
    var first := if buf[i] == MINUS || buf[i] == PLUS then i + 1 else i;
    var end := SkipDigits(buf, first);
    if end == first then (0, cur)
    else (Clamp(if buf[i] == MINUS then -DigitsValue(buf[first..end]) else DigitsValue(buf[first..end])), end)
  }

  /** The next delay and the cursor behind it; a negative delay says that there is none. */
  function NextInt(buf: Text, cur: nat): (r: (int, nat))
    requires Terminated(buf) && cur < |buf|
    ensures cur <= r.1 < |buf|
    ensures r.0 >= 0 ==> cur < r.1
  {
    var (value, end) := Strtol(buf, cur);
    if buf[cur] == NUL then (-1, end)
    else if buf[end] == COLON then (value, end + 1)
    else if buf[end] == NUL then (value, end)
    else (-1, end)
  }

  /** The delays accepted from `cur` on, up to the first that is not. */
  function Tokens(buf: Text, cur: nat): seq<int>
    requires Terminated(buf) && cur < |buf|
    decreases |buf| - cur
  {
    var (delay, next) := NextInt(buf, cur);
    if delay < 0 then [] else [delay] + Tokens(buf, next)
  }

  /** The cursor after `n` accepted delays. */
  function Position(buf: Text, n: nat): (cur: nat)
    requires Terminated(buf)
    ensures cur < |buf|
  {
    if n == 0 then 0 else NextInt(buf, Position(buf, n - 1)).1
  }

  function Colons(buf: Text): nat {
    if buf == [] then 0 else (if buf[0] == COLON then 1 else 0) + Colons(buf[1..])
  }

  lemma {:induction false} ColonsFrom(buf: Text, i: nat)
    requires i <= |buf|
    ensures Colons(buf[i..]) <= Colons(buf)
  {
    if i > 0 {
      ColonsFrom(buf[1..], i - 1);
      assert buf[1..][i - 1..] == buf[i..];
    }
  }

  /** There is at most one more delay than there are separators. */
  lemma {:induction false} TokensAndColons(buf: Text, cur: nat)
    requires Terminated(buf) && cur < |buf|
    ensures |Tokens(buf, cur)| <= Colons(buf[cur..]) + 1
    decreases |buf| - cur
  {
    var (delay, next) := NextInt(buf, cur);
    if delay >= 0 {
      assert buf[next - 1] == COLON || NextInt(buf, next).0 == -1;
      hide NextInt;
      if buf[next - 1] == COLON {
        TokensAndColons(buf, next);
        ColonsAfter(buf, cur, next);
      }
    }
  }

  lemma ColonsAfter(buf: Text, cur: nat, next: nat)
    requires cur < next <= |buf| && buf[next - 1] == COLON
    ensures Colons(buf[next..]) + 1 <= Colons(buf[cur..])
  {
    var rest := buf[cur..];
    ColonsFrom(rest, next - 1 - cur);
    assert rest[next - 1 - cur..] == buf[next - 1..];
    assert buf[next - 1..][1..] == buf[next..];
  }

  /** The accepted delays, one position after another. */
  lemma {:induction false} TokensByPosition(buf: Text, n: nat)
    requires Terminated(buf) && n <= |Tokens(buf, 0)|
    ensures Tokens(buf, Position(buf, n)) == Tokens(buf, 0)[n..]
    ensures var delay := NextInt(buf, Position(buf, n)).0;
            if n < |Tokens(buf, 0)| then delay == Tokens(buf, 0)[n] else delay < 0
  {
    hide NextInt;
    if n > 0 {
      TokensByPosition(buf, n - 1);
      var all, here, after := Tokens(buf, 0), Position(buf, n - 1), Position(buf, n);
      assert Tokens(buf, here) == [all[n - 1]] + Tokens(buf, after);
      assert all[n - 1..][1..] == all[n..];
    }
    assert Tokens(buf, Position(buf, n)) == Tokens(buf, 0)[n..];
  }

  /** From `cur` on the text shows a decimal number: blanks up to `sign`, there a sign or nothing, and then digits from
      `first` up to `end`, as many as there are. */
  predicate ShowsNumber(buf: Text, cur: nat, sign: nat, first: nat, end: nat) {
    && cur <= sign <= first < end < |buf|
    && (forall i :: cur <= i < sign ==> buf[i] == 32 || 9 <= buf[i] <= 13)
    && (if buf[sign] == 43 || buf[sign] == 45 then first == sign + 1 else first == sign)
    && (forall i :: first <= i < end ==> 48 <= buf[i] <= 57)
    && !(48 <= buf[end] <= 57)
  }

  /** The number shown, limited to 32 bits. */
  function Shown(buf: Text, sign: nat, first: nat, end: nat): int
    requires sign <= first <= end < |buf|
  {
    var magnitude := DigitsValue(buf[first..end]);
    var n := if buf[sign] == 45 then -magnitude else magnitude;
    if n > 0x7fff_ffff then 0x7fff_ffff else if n < -0x8000_0000 then -0x8000_0000 else n
  }

  /** A delay stands at `cur`: nothing before a ':', which means zero, or a number that is not negative and is
      followed by a ':' or the end of the text; the next one is looked for behind the ':'. */
  ghost predicate DelayAt(buf: Text, cur: nat, delay: int, next: nat)
    requires cur < |buf|
  {
    || (buf[cur] == 58 && delay == 0 && next == cur + 1)
    || exists sign: nat, first: nat, end: nat ::
         && ShowsNumber(buf, cur, sign, first, end)
         && delay == Shown(buf, sign, first, end) >= 0
         && (buf[end] == 58 || buf[end] == 0)
         && next == if buf[end] == 58 then end + 1 else end
  }

  /** Exactly the delays that stand at the cursor are accepted, with the cursor behind them. */
  lemma AcceptedIff(buf: Text, cur: nat, delay: int, next: nat)
    requires Terminated(buf) && cur < |buf|
    ensures NextInt(buf, cur) == (delay, next) && delay >= 0 <==> DelayAt(buf, cur, delay, next)
  {
    hide Strtol, DigitsValue, Shown;
    if buf[cur] == 58 {
      NoNumberAtColon(buf, cur);
    } else {
      NumberIff(buf, cur);
      if Strtol(buf, cur).1 == cur {
        forall sign: nat, first: nat, end: nat
          ensures !ShowsNumber(buf, cur, sign, first, end)
        {
          if ShowsNumber(buf, cur, sign, first, end) {
            OnlyNumber(buf, cur, sign, first, end);
          }
        }
      } else {
        var sign, first := SignAt(buf, cur), FirstDigitAt(buf, cur);
        forall sign': nat, first': nat, end': nat | ShowsNumber(buf, cur, sign', first', end')
          ensures sign' == sign && first' == first && end' == Strtol(buf, cur).1
        {
          OnlyNumber(buf, cur, sign', first', end');
        }
      }
    }
  }

  function SignAt(buf: Text, cur: nat): (sign: nat)
    requires Terminated(buf) && cur < |buf|
    ensures cur <= sign < |buf|
  {
    SkipSpaces(buf, cur)
  }

  function FirstDigitAt(buf: Text, cur: nat): nat
    requires Terminated(buf) && cur < |buf|
  {
    var i := SignAt(buf, cur);
    if buf[i] == 45 || buf[i] == 43 then i + 1 else i
  }

  lemma {:induction false} SpacesSkipped(buf: Text, cur: nat, end: nat)
    requires Terminated(buf) && cur <= end < |buf| && !IsSpace(buf[end])
    requires forall i :: cur <= i < end ==> IsSpace(buf[i])
    ensures SkipSpaces(buf, cur) == end
    decreases end - cur
  {
    if cur < end {
      SpacesSkipped(buf, cur + 1, end);
    }
  }

  lemma {:induction false} SkippedAreSpaces(buf: Text, cur: nat)
    requires Terminated(buf) && cur < |buf|
    ensures !IsSpace(buf[SkipSpaces(buf, cur)])
    ensures forall i :: cur <= i < SkipSpaces(buf, cur) ==> IsSpace(buf[i])
    decreases |buf| - cur
  {
    if IsSpace(buf[cur]) {
      SkippedAreSpaces(buf, cur + 1);
    }
  }

  /** strtol reads the number that is shown, and none otherwise. */
  lemma NumberIff(buf: Text, cur: nat)
    requires Terminated(buf) && cur < |buf|
    ensures var end := Strtol(buf, cur).1;
            end != cur ==>
              && ShowsNumber(buf, cur, SignAt(buf, cur), FirstDigitAt(buf, cur), end)
              && Strtol(buf, cur).0 == Shown(buf, SignAt(buf, cur), FirstDigitAt(buf, cur), end)
  {
    hide DigitsValue;
    SkippedAreSpaces(buf, cur);
  }

  /** There is at most one way to read a number from a place, and strtol takes it. */
  lemma OnlyNumber(buf: Text, cur: nat, sign: nat, first: nat, end: nat)
    requires Terminated(buf) && ShowsNumber(buf, cur, sign, first, end)
    ensures SignAt(buf, cur) == sign && FirstDigitAt(buf, cur) == first && Strtol(buf, cur).1 == end != cur
  {
    hide DigitsValue;
    assert !IsSpace(buf[sign]) by {
      assert first == sign ==> 48 <= buf[first] <= 57;
    }
    SpacesSkipped(buf, cur, sign);
    DigitsSkipped(buf, first, end);
  }

  lemma NoNumberAtColon(buf: Text, cur: nat)
    requires Terminated(buf) && cur < |buf| && buf[cur] == 58
    ensures Strtol(buf, cur) == (0, cur)
    ensures forall sign: nat, first: nat, end: nat :: !ShowsNumber(buf, cur, sign, first, end)
  {
  }

  lemma {:induction false} TokensNotNegative(buf: Text, cur: nat)
    requires Terminated(buf) && cur < |buf|
    ensures forall i :: 0 <= i < |Tokens(buf, cur)| ==> Tokens(buf, cur)[i] >= 0
    decreases |buf| - cur
  {
    hide NextInt;
    var (delay, next) := NextInt(buf, cur);
    if delay >= 0 {
      TokensNotNegative(buf, next);
    }
  }

  /** The accepted delays are those that stand one behind the other from the start, up to the first place where none
      does. */
  lemma DelaysStandInOrder(buf: Text, n: nat)
    requires Terminated(buf) && n <= |Tokens(buf, 0)|
    ensures n < |Tokens(buf, 0)| ==> DelayAt(buf, Position(buf, n), Tokens(buf, 0)[n], Position(buf, n + 1))
    ensures n == |Tokens(buf, 0)| ==> forall delay, next: nat :: !DelayAt(buf, Position(buf, n), delay, next)
  {
    hide NextInt, Tokens, DelayAt;
    TokensByPosition(buf, n);
    TokensNotNegative(buf, 0);
    var cur := Position(buf, n);
    assert Position(buf, n + 1) == NextInt(buf, cur).1;
    forall delay, next: nat
      ensures DelayAt(buf, cur, delay, next) <==> NextInt(buf, cur) == (delay, next) && delay >= 0
    {
      AcceptedIff(buf, cur, delay, next);
    }
  }

  /** The decimal digits of a number. */
  function Decimal(n: nat): (ds: Text)
    ensures |ds| > 0
    ensures forall i :: 0 <= i < |ds| ==> IsDigit(ds[i])
  {
    if n < 10 then [48 + n] else Decimal(n / 10) + [48 + n % 10]
  }

  lemma {:induction false} DecimalValue(n: nat)
    ensures DigitsValue(Decimal(n)) == n
  {
    if n < 10 {
      assert Decimal(n)[..0] == [];
    } else {
      DecimalValue(n / 10);
      assert Decimal(n)[..|Decimal(n)| - 1] == Decimal(n / 10);
    }
  }

  /** Delays printed as a pattern. */
  function Print(delays: seq<int>): Text
    requires delays != [] && forall i :: 0 <= i < |delays| ==> 0 <= delays[i]
  {
    if |delays| == 1 then Decimal(delays[0]) else Decimal(delays[0]) + [COLON] + Print(delays[1..])
  }

  lemma {:induction false} DigitsSkipped(buf: Text, cur: nat, end: nat)
    requires Terminated(buf) && cur <= end < |buf| && !IsDigit(buf[end])
    requires forall k :: cur <= k < end ==> IsDigit(buf[k])
    ensures SkipDigits(buf, cur) == end
    decreases end - cur
  {
    if cur < end {
      DigitsSkipped(buf, cur + 1, end);
    }
  }

  /** The text stands in the buffer from position `pos` on. */
  predicate At(buf: Text, pos: nat, text: Text) {
    pos + |text| <= |buf| && forall i {:trigger text[i]} :: 0 <= i < |text| ==> buf[pos + i] == text[i]
  }

  lemma AtParts(buf: Text, pos: nat, x: Text, y: Text)
    requires At(buf, pos, x + y)
    ensures At(buf, pos, x) && At(buf, pos + |x|, y)
  {
    forall i | 0 <= i < |x|
      ensures buf[pos + i] == x[i]
    {
      assert (x + y)[i] == x[i];
    }
    forall i | 0 <= i < |y|
      ensures buf[pos + |x| + i] == y[i]
    {
      assert (x + y)[|x| + i] == y[i];
    }
  }

  lemma AtOne(buf: Text, pos: nat, b: int)
    requires At(buf, pos, [b])
    ensures pos < |buf| && buf[pos] == b
  {
    assert buf[pos + 0] == [b][0];
  }

  lemma AtFits(buf: Text, pos: nat, text: Text)
    requires At(buf, pos, text)
    ensures pos + |text| <= |buf|
  {
  }

  /** strtol reads back a printed number that is followed by anything but a digit. */
  lemma StrtolReadsDecimal(buf: Text, cur: nat, n: nat)
    requires Terminated(buf) && n <= LONG_MAX && At(buf, cur, Decimal(n))
    requires cur + |Decimal(n)| < |buf| && !IsDigit(buf[cur + |Decimal(n)|])
    ensures Strtol(buf, cur) == (n, cur + |Decimal(n)|) && buf[cur] != NUL
  {
    var ds := Decimal(n);
    var end := cur + |ds|;
    DecimalValue(n);
    hide Decimal;
    forall k | cur <= k < end
      ensures IsDigit(buf[k])
    {
      assert buf[cur + (k - cur)] == ds[k - cur];
    }
    DigitsSkipped(buf, cur, end);
    assert buf[cur..end] == ds;
    assert IsDigit(buf[cur]);
  }

  lemma NextReadsDecimal(buf: Text, cur: nat, n: nat)
    requires Terminated(buf) && n <= LONG_MAX && At(buf, cur, Decimal(n))
    requires cur + |Decimal(n)| < |buf|
    requires buf[cur + |Decimal(n)|] == COLON || buf[cur + |Decimal(n)|] == NUL
    ensures var end := cur + |Decimal(n)|;
            NextInt(buf, cur) == (n, if buf[end] == COLON then end + 1 else end)
  {
    hide Decimal, Strtol, NextInt, At;
    StrtolReadsDecimal(buf, cur, n);
    NextAfterNumber(buf, cur, n, cur + |Decimal(n)|);
  }

  lemma NextAfterNumber(buf: Text, cur: nat, value: int, end: nat)
    requires Terminated(buf) && cur < |buf| && end < |buf| && buf[cur] != NUL
    requires Strtol(buf, cur) == (value, end) && (buf[end] == COLON || buf[end] == NUL)
    ensures NextInt(buf, cur) == (value, if buf[end] == COLON then end + 1 else end)
  {
    hide Strtol;
  }

  /** The first printed delay is read, and the cursor then stands at the rest. */
  lemma FirstDelayRead(buf: Text, cur: nat, delays: seq<int>) returns (next: nat)
    requires Terminated(buf) && delays != []
    requires forall i :: 0 <= i < |delays| ==> 0 <= delays[i] <= LONG_MAX
    requires At(buf, cur, Print(delays) + [NUL])
    ensures cur < |buf| && next < |buf| && NextInt(buf, cur) == (delays[0], next)
    ensures if |delays| == 1 then buf[next] == NUL else At(buf, next, Print(delays[1..]) + [NUL])
  {
    hide Decimal, NextInt, At;
    var d := Decimal(delays[0]);
    if |delays| == 1 {
      AtParts(buf, cur, d, [NUL]);
      next := cur + |d|;
      AtOne(buf, next, NUL);
    } else {
      var rest := Print(delays[1..]) + [NUL];
      assert Print(delays) + [NUL] == d + ([COLON] + rest);
      AtParts(buf, cur, d, [COLON] + rest);
      AtParts(buf, cur + |d|, [COLON], rest);
      next := cur + |d| + 1;
      AtOne(buf, cur + |d|, COLON);
      AtFits(buf, next, rest);
    }
    hide Print;
    NextReadsDecimal(buf, cur, delays[0]);
  }

  /** Reading undoes printing, wherever in the buffer the printed delays stand. */
  lemma {:induction false} TokensReadPrint(buf: Text, cur: nat, delays: seq<int>)
    requires Terminated(buf) && delays != []
    requires forall i :: 0 <= i < |delays| ==> 0 <= delays[i] <= LONG_MAX
    requires At(buf, cur, Print(delays) + [NUL])
    ensures cur < |buf| && Tokens(buf, cur) == delays
    decreases |delays|
  {
    var next := FirstDelayRead(buf, cur, delays);
    if |delays| == 1 {
      assert Tokens(buf, next) == [];
    } else {
      TokensReadPrint(buf, next, delays[1..]);
      assert delays == [delays[0]] + delays[1..];
    }
    hide NextInt, At, Print;
  }

  /** A number followed by any byte but a digit, a ':' or the end of the text is no delay, whatever comes later. */
  lemma InvalidCharacter(buf: Text, cur: nat, n: nat)
    requires Terminated(buf) && n <= 0x7fff_ffff && At(buf, cur, Decimal(n)) && cur + |Decimal(n)| < |buf|
    requires var b := buf[cur + |Decimal(n)|]; !(48 <= b <= 57) && b != 58 && b != 0
    ensures NextInt(buf, cur).0 < 0
    ensures forall delay, next: nat :: !DelayAt(buf, cur, delay, next)
  {
    hide Decimal, Strtol, DelayAt;
    StrtolReadsDecimal(buf, cur, n);
    forall delay, next: nat
      ensures !DelayAt(buf, cur, delay, next)
    {
      AcceptedIff(buf, cur, delay, next);
    }
  }
}
