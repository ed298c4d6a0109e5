/**
  Downloading a stream with ffmpeg: the command line built once by the constructor,
  the progress read from ffmpeg's standard error ("Duration: HH:MM:SS" first, then the
  last "time=HH:MM:SS"), and the decision taken when ffmpeg exits: a retry without the
  aac_adtstoasc bitstream filter, or the end of the download.

  The ffmpeg process and the one-second timer are given by their observable state;
  what ffmpeg wrote to standard error is an input of the method that reads it.
*/
module StreamGet {
  import opened Wrappers
  import opened QtStrings

  const DurationMarker: string := "Duration: "
  const TimeMarker: string := "time="
  const BitstreamFilterError: string := "Error initializing bitstream filter: aac_adtstoasc"

  /** The HH:MM:SS clock whose hour field starts at `pos`: three two-character fields, each read
      by toInt() (0 when it is not a number), three characters apart. */
  function ClockAt(output: string, pos: nat): int {
    ParseInt(Mid(output, pos, 2)) * 3600 + ParseInt(Mid(output, pos + 3, 2)) * 60 + ParseInt(Mid(output, pos + 6, 2))
  }

  /** The duration ffmpeg announces: the clock after the first "Duration: ", if there is one. */
  function DecodeDuration(output: string): Option<int> {
    match IndexOf(output, DurationMarker)
    case None => None
    case Some(i) => Some(ClockAt(output, i + 10))
  }

  /** The position reached: the clock after the last "time=", if there is one. */
  function DecodeTime(output: string): Option<int> {
    match LastIndexOf(output, TimeMarker)
    case None => None
    case Some(i) => Some(ClockAt(output, i + 5))
  }

  /** time * 100 / duration in C++ int arithmetic. */
  function Percent(time: int, duration: int): int
    requires duration != 0
  {
    TruncDiv(time * 100, duration)
  }

  /** QStringList::removeOne: the first occurrence of `x` removed, if any. */
  function RemoveOne(s: seq<string>, x: string): seq<string> {
    if s == [] then []
    else if s[0] == x then s[1..]
    else [s[0]] + RemoveOne(s[1..], x)
  }

  /** The argument list of the retry: without the first -bsf:a and the first aac_adtstoasc. */
  function Retried(args: seq<string>): seq<string> {
    RemoveOne(RemoveOne(args, "-bsf:a"), "aac_adtstoasc")
  }

  // ---------------------------------------------------------------------------
  // Removing one argument

  /** Without `x` the list is unchanged. */
  lemma {:induction false} RemoveOneAbsent(s: seq<string>, x: string)
    requires x !in s
    ensures RemoveOne(s, x) == s
  {
    if s != [] {
      assert x !in s[1..];
      RemoveOneAbsent(s[1..], x);
    }
  }

  /** Where the first `x` is at `i`, removing `x` takes out that element and keeps every other argument in order. */
  lemma {:induction false} RemoveOneAt(s: seq<string>, x: string, i: nat)
    requires i < |s| && s[i] == x && x !in s[..i]
    ensures RemoveOne(s, x) == s[..i] + s[i + 1..]
  {
    if i > 0 {
      assert s[0] != x by { assert s[0] == s[..i][0]; }
      assert s[1..][..i - 1] == s[1..i];
      assert x !in s[1..i] by {
        forall k | 0 <= k < i - 1 ensures s[1..i][k] != x { assert s[1..i][k] == s[..i][k + 1]; }
      }
      RemoveOneAt(s[1..], x, i - 1);
      assert s[..i] == [s[0]] + s[1..][..i - 1];
      assert s[i + 1..] == s[1..][i..];
    }
  }

  /** Removing `x` takes one copy of it out of the multiset of arguments. */
  lemma {:induction false} RemoveOneMultiset(s: seq<string>, x: string)
    ensures x in s ==> multiset(RemoveOne(s, x)) + multiset{x} == multiset(s)
    ensures x !in s ==> multiset(RemoveOne(s, x)) == multiset(s)
  {
    if s != [] {
      assert s == [s[0]] + s[1..];
      RemoveOneMultiset(s[1..], x);
    }
  }

  /** The retry drops exactly the two filter arguments from the constructor's command line,
      provided the url is not itself one of them. */
  lemma RetryOfInitialArgs(url: string, filename: string)
    requires url != "-bsf:a" && url != "aac_adtstoasc"
    ensures Retried(["-y", "-i", url, "-c", "copy", "-bsf:a", "aac_adtstoasc", filename])
         == ["-y", "-i", url, "-c", "copy", filename]
  {
    var a := ["-y", "-i", url, "-c", "copy", "-bsf:a", "aac_adtstoasc", filename];
    var b := ["-y", "-i", url, "-c", "copy", "aac_adtstoasc", filename];
    assert a[..5] == b[..5] == ["-y", "-i", url, "-c", "copy"];
    RemoveOneAt(a, "-bsf:a", 5);
    assert a[..5] + a[6..] == b;
    RemoveOneAt(b, "aac_adtstoasc", 5);
    assert b[..5] + b[6..] == ["-y", "-i", url, "-c", "copy", filename];
  }

  /** A second retry leaves the command line as the first one left it, unless the file name is a filter argument. */
  lemma RetryIsIdempotent(url: string, filename: string)
    requires url != "-bsf:a" && url != "aac_adtstoasc"
    requires filename != "-bsf:a" && filename != "aac_adtstoasc"
    ensures var once := Retried(["-y", "-i", url, "-c", "copy", "-bsf:a", "aac_adtstoasc", filename]);
      Retried(once) == once
  {
    RetryOfInitialArgs(url, filename);
    var once := ["-y", "-i", url, "-c", "copy", filename];
    RemoveOneAbsent(once, "-bsf:a");
    RemoveOneAbsent(once, "aac_adtstoasc");
  }

  // ---------------------------------------------------------------------------
  // Decoding the clock

  /** A number below 100 written with two digits, as ffmpeg writes each clock field. */
  function TwoDigits(n: nat): (r: string)
    requires n < 100
    ensures |r| == 2
  {
    [DigitChar(n / 10), DigitChar(n % 10)]
  }

  /** toInt() reads a two-digit field back. */
  lemma ParseTwoDigits(n: nat)
    requires n < 100
    ensures ParseInt(TwoDigits(n)) == n
  {
    var t := TwoDigits(n);
    assert TrimStart(t) == t by { assert !IsSpace(t[0]); }
    assert TrimEnd(t) == t by { assert !IsSpace(t[1]); }
    assert AllDigits(t);
    assert t[..1] == [t[0]] && [t[0]][..0] == [];
    assert DigitsValue(t[..1]) == n / 10;
    assert DigitsValue(t) == (n / 10) * 10 + n % 10;
  }

  /** The text ffmpeg prints for a clock. */
  function ClockText(h: nat, m: nat, s: nat): string
    requires h < 100 && m < 100 && s < 100
  {
    TwoDigits(h) + ":" + TwoDigits(m) + ":" + TwoDigits(s)
  }

  lemma SubSlice(s: string, lo: nat, hi: nat, i: nat, j: nat)
    requires lo <= hi <= |s| && i <= j <= hi - lo
    ensures s[lo..hi][i..j] == s[lo + i..lo + j]
  {
    assert forall k :: 0 <= k < j - i ==> s[lo..hi][i..j][k] == s[lo + i + k];
  }

  /** Where ffmpeg printed a clock, the three fields the decoder cuts out are its two-digit fields. */
  lemma ClockFields(output: string, pos: nat, h: nat, m: nat, s: nat)
    requires h < 100 && m < 100 && s < 100
    requires pos + 8 <= |output| && output[pos..pos + 8] == ClockText(h, m, s)
    ensures Mid(output, pos, 2) == TwoDigits(h)
    ensures Mid(output, pos + 3, 2) == TwoDigits(m)
    ensures Mid(output, pos + 6, 2) == TwoDigits(s)
  {
    var c := ClockText(h, m, s);
    assert c[0..2] == TwoDigits(h) && c[3..5] == TwoDigits(m) && c[6..8] == TwoDigits(s);
    SubSlice(output, pos, pos + 8, 0, 2);
    SubSlice(output, pos, pos + 8, 3, 5);
    SubSlice(output, pos, pos + 8, 6, 8);
  }

  /** Reading a clock where ffmpeg printed one gives its number of seconds. */
  lemma ClockAtText(output: string, pos: nat, h: nat, m: nat, s: nat)
    requires h < 100 && m < 100 && s < 100
    requires pos + 8 <= |output| && output[pos..pos + 8] == ClockText(h, m, s)
    ensures ClockAt(output, pos) == h * 3600 + m * 60 + s
  {
    ClockFields(output, pos, h, m, s);
    ParseTwoDigits(h);
    ParseTwoDigits(m);
    ParseTwoDigits(s);
  }

  /** A marker followed by a clock: the marker occurs there and the clock follows it. */
  lemma MarkedClock(output: string, p: nat, marker: string, h: nat, m: nat, s: nat)
    requires h < 100 && m < 100 && s < 100
    requires OccursAt(output, marker + ClockText(h, m, s), p)
    ensures OccursAt(output, marker, p)
    ensures output[p + |marker|..p + |marker| + 8] == ClockText(h, m, s)
  {
    var n := |marker|;
    var w := output[p..p + n + 8];
    assert w[..n] == marker && w[n..] == ClockText(h, m, s);
    SubSlice(output, p, p + n + 8, 0, n);
    SubSlice(output, p, p + n + 8, n, n + 8);
  }

  lemma FirstMarker(output: string, p: nat, marker: string)
    requires OccursAt(output, marker, p)
    requires forall j :: 0 <= j < p ==> !OccursAt(output, marker, j)
    ensures IndexOf(output, marker) == Some(p)
  {
    var r := IndexOf(output, marker);
    assert r.Some? && r.value <= p;
  }

  lemma LastMarker(output: string, p: nat, marker: string)
    requires OccursAt(output, marker, p)
    requires forall j :: p < j ==> !OccursAt(output, marker, j)
    ensures LastIndexOf(output, marker) == Some(p)
  {
    var r := LastIndexOf(output, marker);
    assert r.Some? && r.value >= p;
  }

  lemma DecodeDurationAt(output: string, p: nat)
    requires IndexOf(output, DurationMarker) == Some(p)
    ensures DecodeDuration(output) == Some(ClockAt(output, p + 10))
  {
    var c := ClockAt(output, p + 10);
    assert DecodeDuration(output) == Some(c);
  }

  lemma DecodeTimeAt(output: string, p: nat)
    requires LastIndexOf(output, TimeMarker) == Some(p)
    ensures DecodeTime(output) == Some(ClockAt(output, p + 5))
  {
    var c := ClockAt(output, p + 5);
    assert DecodeTime(output) == Some(c);
  }

  /** Where ffmpeg printed "Duration: HH:MM:SS" at `p`, with no "Duration: " before it, that clock is the duration. */
  lemma DecodeDurationOfText(output: string, p: nat, h: nat, m: nat, s: nat)
    requires h < 100 && m < 100 && s < 100
    requires OccursAt(output, DurationMarker + ClockText(h, m, s), p)
    requires forall j :: 0 <= j < p ==> !OccursAt(output, DurationMarker, j)
    ensures DecodeDuration(output) == Some(h * 3600 + m * 60 + s)
  {
    MarkedClock(output, p, DurationMarker, h, m, s);
    FirstMarker(output, p, DurationMarker);
    DecodeDurationAt(output, p);
    ClockAtText(output, p + 10, h, m, s);
  }

  /** Where ffmpeg printed "time=HH:MM:SS" at `p`, with no "time=" after it, that clock is the position. */
  lemma DecodeTimeOfText(output: string, p: nat, h: nat, m: nat, s: nat)
    requires h < 100 && m < 100 && s < 100
    requires OccursAt(output, TimeMarker + ClockText(h, m, s), p)
    requires forall j :: p < j ==> !OccursAt(output, TimeMarker, j)
    ensures DecodeTime(output) == Some(h * 3600 + m * 60 + s)
  {
    MarkedClock(output, p, TimeMarker, h, m, s);
    LastMarker(output, p, TimeMarker);
    DecodeTimeAt(output, p);
    ClockAtText(output, p + 5, h, m, s);
  }

  /** A field of at most two characters reads as a number from -9 to 99. */
  lemma {:induction false} FieldBounds(f: string)
    requires |f| <= 2
    ensures -9 <= ParseInt(f) <= 99
  {
    var t := TrimEnd(TrimStart(f));
    assert |t| <= 2;
    if |t| > 0 && AllDigits(t) {
      ShortDigitsBound(t);
    } else if |t| > 1 && (t[0] == '+' || t[0] == '-') && AllDigits(t[1..]) {
      ShortDigitsBound(t[1..]);
    }
  }

  lemma ShortDigitsBound(ds: string)
    requires |ds| <= 2 && AllDigits(ds)
    ensures DigitsValue(ds) <= (if |ds| <= 1 then 9 else 99)
  {
    if |ds| == 2 {
      assert AllDigits(ds[..1]);
      assert ds[..1][..0] == [];
    } else if |ds| == 1 {
      assert ds[..0] == [];
    }
  }

  /** Whatever ffmpeg prints, a decoded clock lies within 99 hours, 99 minutes and 99 seconds either way,
      so time * 100 stays far from the 32-bit limit. */
  lemma ClockBounds(output: string, pos: nat)
    ensures -9 * 3661 <= ClockAt(output, pos) <= 99 * 3661
    ensures -0x8000_0000 < ClockAt(output, pos) * 100 < 0x8000_0000
  {
    FieldBounds(Mid(output, pos, 2));
    FieldBounds(Mid(output, pos + 3, 2));
    FieldBounds(Mid(output, pos + 6, 2));
  }

  /** On non-negative operands the C++ quotient is the Euclidean one. */
  lemma PercentIsQuotient(time: int, duration: int)
    requires time >= 0 && duration > 0
    ensures Percent(time, duration) == (time * 100) / duration
  {
    TruncDivMod(time * 100, duration);
  }

  /** A position within the duration gives a percentage from 0 to 100, which grows with the position. */
  lemma PercentBounds(time: int, later: int, duration: int)
    requires 0 <= time <= later <= duration && duration > 0
    ensures 0 <= Percent(time, duration) <= Percent(later, duration) <= 100
    ensures Percent(duration, duration) == 100
  {
    PercentIsQuotient(time, duration);
    PercentIsQuotient(later, duration);
    PercentIsQuotient(duration, duration);
    DivMonotone(time * 100, later * 100, duration);
    DivMonotone(later * 100, duration * 100, duration);
    HundredTimes(duration);
  }

  lemma HundredTimes(d: nat)
    requires d > 0
    ensures (d * 100) / d == 100
  {
  }

  lemma DivMonotone(a: nat, b: nat, d: nat)
    requires a <= b && d > 0
    ensures a / d <= b / d
  {
    var qa, qb := a / d, b / d;
    assert d * qa <= a && b < d * qb + d;
    MulMonotone(d, qb + 1, qa);
  }

  lemma MulMonotone(d: nat, x: int, y: int)
    ensures x <= y ==> d * x <= d * y
  {
    assert d * y - d * x == d * (y - x);
  }

  // ---------------------------------------------------------------------------
  // The download item

  /** What the item emits: progressChanged(percent, true) and finished(this, code). */
  datatype Signal = ProgressChanged(percent: int, isPercentage: bool) | Finished(code: int)

  /** The QTimer: none, stopped, or firing every `intervalMs` milliseconds. */
  datatype Timer = NoTimer | Stopped | Ticking(intervalMs: nat)

  class StreamItem {
    var args: seq<string>
    var duration: int
    var hasProcess: bool            // process != nullptr
    var timer: Timer
    var launches: seq<seq<string>>  // the argument lists ffmpeg has been started with, in order
    var signals: seq<Signal>        // everything emitted, in order

    constructor (url: string, filename: string)
      ensures args == ["-y", "-i", url, "-c", "copy", "-bsf:a", "aac_adtstoasc", filename]
      ensures duration == 0 && !hasProcess && timer == NoTimer
      ensures launches == [] && signals == []
    {
      args := ["-y", "-i", url, "-c", "copy", "-bsf:a", "aac_adtstoasc", filename];
      duration := 0;
      hasProcess := false;
      timer := NoTimer;
      launches := [];
      signals := [];
    }

    /** start: ffmpeg is launched with the argument list, progress 0 is emitted first, and the timer ticks every second. */
    method Start()
      modifies this
      ensures hasProcess && launches == old(launches) + [args] && timer == Ticking(1000)
      ensures signals == old(signals) + [ProgressChanged(0, true)]
      ensures args == old(args) && duration == old(duration)
    {
      hasProcess := true;
      launches := launches + [args];
      signals := signals + [ProgressChanged(0, true)];
      timer := Ticking(1000);
    }

    /** readOutput on what ffmpeg wrote to standard error since the last tick: as long as the duration is 0
        it is read, and nothing is emitted; once it is known, it never changes again and the percentage
        of the last position is emitted. Without the marker nothing changes. */
    method ReadOutput(output: string)
      modifies this`duration, this`signals
      ensures old(duration) == 0 ==> signals == old(signals) && duration == DecodeDuration(output).GetOr(0)
      ensures old(duration) != 0 ==> duration == old(duration)
      ensures old(duration) != 0 && DecodeTime(output).None? ==> signals == old(signals)
      ensures old(duration) != 0 && DecodeTime(output).Some? ==>
        signals == old(signals) + [ProgressChanged(Percent(DecodeTime(output).value, duration), true)]
    {
      if duration == 0 {
        var i := IndexOf(output, DurationMarker);
        if i.Some? {
          duration := ClockAt(output, i.value + 10);
        }
      } else {
        var i := LastIndexOf(output, TimeMarker);
        if i.Some? {
          var time := ClockAt(output, i.value + 5);
          signals := signals + [ProgressChanged(Percent(time, duration), true)];
        }
      }
    }

    /** onProcFinished: the timer stops; a failure caused by the aac_adtstoasc filter restarts ffmpeg without
        it and emits nothing; any other exit emits finished(code) and drops the process and the timer. */
    method OnProcFinished(code: int, errOutput: string)
      modifies this
      ensures duration == old(duration)
      ensures code != 0 && Contains(errOutput, BitstreamFilterError) ==>
        && args == Retried(old(args))
        && launches == old(launches) + [args]
        && timer == Ticking(1000)
        && hasProcess == old(hasProcess)
        && signals == old(signals)
      ensures !(code != 0 && Contains(errOutput, BitstreamFilterError)) ==>
        && args == old(args)
        && launches == old(launches)
        && timer == NoTimer
        && !hasProcess
        && signals == old(signals) + [Finished(code)]
    {
      timer := Stopped;
      if code != 0 {
        if Contains(errOutput, BitstreamFilterError) {
          args := RemoveOne(args, "-bsf:a");
          args := RemoveOne(args, "aac_adtstoasc");
          launches := launches + [args];
          timer := Ticking(1000);
          return;
        }
      }
      signals := signals + [Finished(code)];
      hasProcess := false;
      timer := NoTimer;
    }
  }
}
