/** The progress report of a download, called once for every chunk. */
module DownloadProgress {
  import opened Division

  const PRINT_RANGE_PERCENT := 5

  /** size_t and uint32_t have 32 bits on the supported boards. */
  const SIZE_LIMIT := 0x1_0000_0000

  /** Percentage shown for `size` bytes of the total; the product wraps. */
  function Percent(size: nat, total: nat): int
    requires total > 0
  {
    size * 100 % SIZE_LIMIT / total
  }

  /** fota_app_on_download_progress: the percentages printed for one chunk. */
  function Report(downloaded: nat, chunk: nat, total: nat): seq<int>
    requires total > 0
  {
    var progress := Percent((downloaded + chunk) % SIZE_LIMIT, total);
    var previous := Percent(downloaded, total);
    if downloaded == 0 || progress / PRINT_RANGE_PERCENT > previous / PRINT_RANGE_PERCENT then [progress] else []
  }

  function Sum(chunks: seq<nat>): nat {
    if chunks == [] then 0 else chunks[0] + Sum(chunks[1..])
  }

  /** Everything printed while these chunks arrive. */
  function Printed(downloaded: nat, chunks: seq<nat>, total: nat): seq<int>
    requires total > 0
    decreases |chunks|
  {
    if chunks == [] then []
    else Report(downloaded, chunks[0], total) + Printed(downloaded + chunks[0], chunks[1..], total)
  }

  predicate Positive(chunks: seq<nat>) {
    forall i :: 0 <= i < |chunks| ==> chunks[i] > 0
  }

  predicate Rising(lines: seq<int>) {
    forall i, j :: 0 <= i < j < |lines| ==> lines[i] < lines[j]
  }

  lemma PercentGrows(a: nat, b: nat, total: nat)
    requires a <= b <= total && total > 0 && total * 100 < SIZE_LIMIT
    ensures 0 <= Percent(a, total) <= Percent(b, total) <= 100
    ensures Percent(b, total) == 100 <==> b == total
  {
    hide Percent;
    ExactPercent(a, total);
    ExactPercent(b, total);
    Quotients(a * 100, b * 100, total);
    Quotients(b * 100, total * 100, total);
    DivMod(total * 100, total, 100, 0);
    if b < total {
      BelowWhole(b * 100, total, 100);
    }
  }

  lemma ExactPercent(a: nat, total: nat)
    requires a <= total && total > 0 && total * 100 < SIZE_LIMIT
    ensures Percent(a, total) == a * 100 / total
  {
    assert a * 100 % SIZE_LIMIT == a * 100;
  }

  lemma BelowWhole(a: nat, d: nat, q: nat)
    requires d > 0 && a < d * q
    ensures a / d < q
  {
    Divided(a, d);
    if a / d >= q {
      Times(d, q, a / d);
    }
  }

  lemma Quotients(a: int, b: int, d: int)
    requires 0 <= a <= b && d > 0
    ensures 0 <= a / d <= b / d
  {
    Divided(a, d);
    Divided(b, d);
    if b / d < a / d {
      Times(d, b / d + 1, a / d);
    }
    if a / d < 0 {
      Times(d, a / d, -1);
    }
  }

  /** Lines that lie above a percentage already passed, in different bands of five percent. */
  ghost predicate LinesAbove(lines: seq<int>, previous: int) {
    && Rising(lines)
    && |lines| <= 20 - previous / PRINT_RANGE_PERCENT
    && forall i :: 0 <= i < |lines| ==> previous < lines[i] <= 100
  }

  predicate EndsAtHundred(lines: seq<int>) {
    lines != [] && lines[|lines| - 1] == 100
  }

  /** Once a byte has come, every further line lies in a higher band than what came before it, and the last is 100. */
  lemma {:induction false} LaterLines(downloaded: nat, chunks: seq<nat>, total: nat)
    requires 0 < downloaded && Positive(chunks) && downloaded + Sum(chunks) == total && total * 100 < SIZE_LIMIT
    ensures LinesAbove(Printed(downloaded, chunks, total), Percent(downloaded, total))
    ensures chunks != [] ==> EndsAtHundred(Printed(downloaded, chunks, total))
    decreases |chunks|
  {
    hide Percent, Report, LinesAbove, EndsAtHundred;
    PercentGrows(downloaded, downloaded, total);
    if chunks == [] {
      NoLines(Percent(downloaded, total));
    } else {
      var now := downloaded + chunks[0];
      LaterLines(now, chunks[1..], total);
      LinesFrom(downloaded, chunks[0], total, Printed(now, chunks[1..], total));
    }
  }

  /** The report of one chunk in front of the lines of the later ones. */
  lemma LinesFrom(downloaded: nat, chunk: nat, total: nat, later: seq<int>)
    requires 0 < downloaded && 0 < chunk && downloaded + chunk <= total && total * 100 < SIZE_LIMIT
    requires LinesAbove(later, Percent(downloaded + chunk, total))
    requires downloaded + chunk < total ==> EndsAtHundred(later)
    ensures LinesAbove(Report(downloaded, chunk, total) + later, Percent(downloaded, total))
    ensures EndsAtHundred(Report(downloaded, chunk, total) + later)
  {
    hide Percent, LinesAbove, EndsAtHundred;
    PercentGrows(downloaded, downloaded, total);
    PercentGrows(downloaded, downloaded + chunk, total);
    NextReport(Percent(downloaded, total), Percent(downloaded + chunk, total), later);
  }

  lemma NoLines(previous: int)
    requires 0 <= previous <= 100
    ensures LinesAbove([], previous)
  {
  }

  /** One more report before lines that lie above it. */
  lemma NextReport(previous: int, progress: int, later: seq<int>)
    requires 0 <= previous <= progress <= 100 && previous < 100
    requires LinesAbove(later, progress) && (progress < 100 ==> EndsAtHundred(later))
    ensures var higher := progress / PRINT_RANGE_PERCENT > previous / PRINT_RANGE_PERCENT;
            var lines := (if higher then [progress] else []) + later;
            LinesAbove(lines, previous) && EndsAtHundred(lines)
  {
  }

  /** A whole download in any positive chunks prints at most twenty-one lines, with rising percentages, the
      first for the first chunk, the last of them 100. */
  lemma AtMostTwentyOneLines(chunks: seq<nat>, total: nat)
    requires chunks != [] && Positive(chunks) && Sum(chunks) == total && total * 100 < SIZE_LIMIT
    ensures var lines := Printed(0, chunks, total);
            && 1 <= |lines| <= 21 && Rising(lines)
            && lines[0] == Percent(chunks[0], total) && lines[|lines| - 1] == 100
  {
    hide Percent;
    var now := chunks[0];
    PercentGrows(0, now, total);
    LaterLines(now, chunks[1..], total);
    assert Printed(0, chunks, total) == [Percent(now, total)] + Printed(now, chunks[1..], total);
  }

  /** If and only if the total times a hundred fits a size_t, a hundred percent is ever reported. */
  lemma ReachesHundredIff(chunks: seq<nat>, total: nat)
    requires chunks != [] && Positive(chunks) && Sum(chunks) == total < SIZE_LIMIT
    ensures 100 in Printed(0, chunks, total) <==> total * 100 < SIZE_LIMIT
  {
    if total * 100 < SIZE_LIMIT {
      AtMostTwentyOneLines(chunks, total);
    } else {
      BelowHundred(0, chunks, total);
    }
  }

  lemma {:induction false} BelowHundred(downloaded: nat, chunks: seq<nat>, total: nat)
    requires total * 100 >= SIZE_LIMIT
    ensures forall i :: 0 <= i < |Printed(downloaded, chunks, total)| ==> Printed(downloaded, chunks, total)[i] < 100
    decreases |chunks|
  {
    if chunks != [] {
      var product := (downloaded + chunks[0]) % SIZE_LIMIT * 100 % SIZE_LIMIT;
      Divided(product, total);
      if product / total >= 100 {
        Times(total, 100, product / total);
      }
      BelowHundred(downloaded + chunks[0], chunks[1..], total);
    }
  }

  /** What was printed last is in the band of five percent that the download is in: every band entered by a chunk is
      reported when that chunk comes. */
  ghost predicate UpToDate(lines: seq<int>, percent: int) {
    lines != [] && lines[|lines| - 1] <= percent && lines[|lines| - 1] / 5 == percent / 5
  }

  lemma {:induction false} StaysUpToDate(downloaded: nat, chunks: seq<nat>, total: nat, lines: seq<int>)
    requires 0 < downloaded && Positive(chunks) && downloaded + Sum(chunks) <= total && total * 100 < SIZE_LIMIT
    requires UpToDate(lines, Percent(downloaded, total))
    ensures UpToDate(lines + Printed(downloaded, chunks, total), Percent(downloaded + Sum(chunks), total))
    decreases |chunks|
  {
    hide Percent, Report, UpToDate;
    if chunks == [] {
      assert lines + Printed(downloaded, chunks, total) == lines;
    } else {
      var now := downloaded + chunks[0];
      var more := lines + Report(downloaded, chunks[0], total);
      ReportUpToDate(downloaded, chunks[0], total, lines);
      StaysUpToDate(now, chunks[1..], total, more);
      assert more + Printed(now, chunks[1..], total) == lines + Printed(downloaded, chunks, total);
    }
  }

  lemma ReportUpToDate(downloaded: nat, chunk: nat, total: nat, lines: seq<int>)
    requires 0 < downloaded && 0 < chunk && downloaded + chunk <= total && total * 100 < SIZE_LIMIT
    requires UpToDate(lines, Percent(downloaded, total))
    ensures UpToDate(lines + Report(downloaded, chunk, total), Percent(downloaded + chunk, total))
  {
    hide Percent;
    PercentGrows(downloaded, downloaded + chunk, total);
    assert (downloaded + chunk) % SIZE_LIMIT == downloaded + chunk;
  }

  /** After every chunk of a download, the line printed last is that of the current band of five percent. */
  lemma AlwaysUpToDate(chunks: seq<nat>, total: nat)
    requires chunks != [] && Positive(chunks) && Sum(chunks) <= total && total * 100 < SIZE_LIMIT
    ensures UpToDate(Printed(0, chunks, total), Percent(Sum(chunks), total))
  {
    hide Percent;
    var first := chunks[0];
    PercentGrows(first, first, total);
    assert Printed(0, chunks, total) == [Percent(first, total)] + Printed(first, chunks[1..], total);
    StaysUpToDate(first, chunks[1..], total, [Percent(first, total)]);
  }

  /** The percentage, for totals whose hundredfold fits, is the whole part of the exact one. */
  lemma PercentIs(size: nat, total: nat)
    requires size <= total && total > 0 && total * 100 < 0x1_0000_0000
    ensures total * Percent(size, total) <= size * 100 < total * Percent(size, total) + total
  {
    ExactPercent(size, total);
    Divided(size * 100, total);
    hide Percent;
  }
}
