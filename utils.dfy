/**
  Three helpers of the player: the H:MM:SS text of a number of seconds (optionally wrapped
  in the green bold span of the playlist view), the walk over an XSPF playlist that collects
  each track's title and location, and the conversion of a cookie's raw form into one line
  of a Netscape cookies.txt file.

  The XML document is given as an already parsed element tree (None when it does not
  parse); the cookies are given as their raw forms, and whether the file opens is an input.
*/
module Utils {
  import opened Wrappers
  import opened QtStrings

  // ---------------------------------------------------------------------------
  // secToTime

  const SpanOpen: string := "<span style=\" font-size:14pt; font-weight:600;color:#00ff00;\">"
  const SpanClose: string := "</span>"

  /** A field of one character gets a leading '0'; longer ones ("-5", "42") are kept. */
  function Pad2(f: string): string {
    if |f| == 1 then "0" + f else f
  }

  /** secToTime: hours unpadded, then minutes and seconds padded to two characters, with C++'s
      truncating / and % (so a negative count gives negative fields). */
  function SecToTime(second: int, useFormat: bool): string {
    var hour := IntToString(TruncDiv(second, 3600));
    var min := Pad2(IntToString(TruncDiv(TruncMod(second, 3600), 60)));
    var sec := Pad2(IntToString(TruncMod(second, 60)));
    var plain := hour + ":" + min + ":" + sec;
    if useFormat then SpanOpen + plain + SpanClose else plain
  }

  /** The hour field of a clock text: the text before the first ':'. */
  function HourField(t: string): string {
    SectionFirst(t, ":")
  }

  /** The minute field: between the first and the second ':'. */
  function MinuteField(t: string): string {
    SectionFirst(SectionRest(t, ":"), ":")
  }

  /** The second field: after the second ':'. */
  function SecondField(t: string): string {
    SectionRest(SectionRest(t, ":"), ":")
  }

  /** Reading a clock text back: each field read by toInt(), hours * 3600 + minutes * 60 + seconds. */
  function ReadClock(t: string): int {
    ParseInt(HourField(t)) * 3600 + ParseInt(MinuteField(t)) * 60 + ParseInt(SecondField(t))
  }

  /** number() never writes a ':'. */
  lemma NoColonInNumber(i: int)
    ensures ':' !in IntToString(i)
  {
    var r := IntToString(i);
    if i < 0 {
      assert r == "-" + NatToString(-i);
      assert forall k :: 1 <= k < |r| ==> r[k] == NatToString(-i)[k - 1];
    }
    assert forall k :: 0 <= k < |r| ==> r[k] != ':';
  }

  /** Padding keeps the number: "0d" reads as d, and unpadded fields read as themselves. */
  lemma ParsePadded(i: int)
    ensures ParseInt(Pad2(IntToString(i))) == i
    ensures ':' !in Pad2(IntToString(i))
  {
    var r := IntToString(i);
    NoColonInNumber(i);
    if |r| == 1 {
      assert 0 <= i < 10;
      var d := DigitChar(i);
      assert r == [d];
      var p := "0" + r;
      assert p == ['0', d];
      assert TrimEnd(TrimStart(p)) == p;
      assert p[..1] == "0" && "0"[..0] == "";
      assert DigitsValue(p) == i;
    } else {
      ParseIntOfIntToString(i);
    }
  }

  /** Where neither `a` nor `b` holds a ':', the three fields of a + ":" + b + ":" + c are a, b and c. */
  lemma FieldsOfClock(a: string, b: string, c: string)
    requires ':' !in a && ':' !in b
    ensures HourField(a + ":" + b + ":" + c) == a
    ensures MinuteField(a + ":" + b + ":" + c) == b
    ensures SecondField(a + ":" + b + ":" + c) == c
  {
    var t := a + ":" + b + ":" + c;
    assert t == a + [':'] + (b + ":" + c);
    SectionOfJoin(a, ':', b + ":" + c);
    assert b + ":" + c == b + [':'] + c;
    SectionOfJoin(b, ':', c);
  }

  /** Adding a multiple of 60 keeps the remainder by 60. */
  lemma {:induction false} ShiftMod(b: nat, k: nat)
    ensures (b + 60 * k) % 60 == b % 60
  {
    if k > 0 {
      ShiftMod(b, k - 1);
      assert b + 60 * k == (b + 60 * (k - 1)) + 60;
    }
  }

  /** 3600 is a multiple of 60, so the remainder by 3600 has the same remainder by 60. */
  lemma ModOfMod(a: nat)
    ensures (a % 3600) % 60 == a % 60
  {
    var q := a / 3600;
    assert a == a % 3600 + 60 * (60 * q);
    ShiftMod(a % 3600, 60 * q);
  }

  /** The minutes and seconds fields together give the remainder of the hours. */
  lemma ClockArithmetic(second: int)
    ensures TruncDiv(second, 3600) * 3600 + TruncDiv(TruncMod(second, 3600), 60) * 60 + TruncMod(second, 60) == second
  {
    var h := TruncDiv(second, 3600);
    var r := TruncMod(second, 3600);
    assert r == second - 3600 * h;
    var mi := TruncDiv(r, 60);
    assert TruncMod(r, 60) == r - 60 * mi;
    TruncModOfMagnitudes(second, 3600);
    TruncModOfMagnitudes(r, 60);
    TruncModOfMagnitudes(second, 60);
    ModOfMod(Abs(second));
    if second >= 0 {
      assert r >= 0;
    } else if r < 0 {
      assert Abs(r) == Abs(second) % 3600;
    } else {
      assert r == 0 && Abs(second) % 3600 == 0;
    }
    assert TruncMod(r, 60) == TruncMod(second, 60);
  }

  /** Reading the plain text of any count of seconds back gives that count, negative ones included. */
  lemma SecToTimeReadsBack(second: int)
    ensures ReadClock(SecToTime(second, false)) == second
  {
    var hour := IntToString(TruncDiv(second, 3600));
    var min := Pad2(IntToString(TruncDiv(TruncMod(second, 3600), 60)));
    var sec := Pad2(IntToString(TruncMod(second, 60)));
    NoColonInNumber(TruncDiv(second, 3600));
    ParsePadded(TruncDiv(TruncMod(second, 3600), 60));
    ParsePadded(TruncMod(second, 60));
    ParseIntOfIntToString(TruncDiv(second, 3600));
    FieldsOfClock(hour, min, sec);
    ClockArithmetic(second);
  }

  /** A field of two digits standing for a number below 60. */
  predicate SexagesimalField(f: string) {
    |f| == 2 && AllDigits(f) && ParseInt(f) < 60
  }

  /** Padding a number below 60 gives two digits. */
  lemma PaddedBelowSixty(i: nat)
    requires i < 60
    ensures SexagesimalField(Pad2(IntToString(i)))
  {
    ParsePadded(i);
    var r := NatToString(i);
    assert IntToString(i) == r;
    if |r| == 1 {
      assert Pad2(r) == ['0', r[0]];
    }
  }

  /** For a non-negative count the hours are its decimal quotient by 3600 and the minutes and
      seconds are two digits each, below 60. */
  lemma SecToTimeOfNat(second: nat)
    ensures HourField(SecToTime(second, false)) == NatToString(second / 3600)
    ensures SexagesimalField(MinuteField(SecToTime(second, false)))
    ensures SexagesimalField(SecondField(SecToTime(second, false)))
  {
    TruncDivMod(second, 3600);
    TruncDivMod(second, 60);
    var r := TruncMod(second, 3600);
    assert 0 <= r < 3600;
    TruncDivMod(r, 60);
    assert TruncDiv(r, 60) == r / 60 < 60;
    var hour := IntToString(TruncDiv(second, 3600));
    var min := Pad2(IntToString(TruncDiv(r, 60)));
    var sec := Pad2(IntToString(TruncMod(second, 60)));
    NoColonInNumber(TruncDiv(second, 3600));
    ParsePadded(TruncDiv(r, 60));
    FieldsOfClock(hour, min, sec);
    PaddedBelowSixty(TruncDiv(r, 60));
    PaddedBelowSixty(TruncMod(second, 60));
  }

  /** The formatted text is the plain text inside the span. */
  lemma SecToTimeFormatted(second: int)
    ensures SecToTime(second, true) == SpanOpen + SecToTime(second, false) + SpanClose
    ensures ReadClock(SecToTime(second, true)[|SpanOpen|..|SecToTime(second, true)| - |SpanClose|]) == second
  {
    var plain := SecToTime(second, false);
    var t := SpanOpen + plain + SpanClose;
    assert t[|SpanOpen|..|t| - |SpanClose|] == plain;
    SecToTimeReadsBack(second);
  }

  // ---------------------------------------------------------------------------
  // readXspf

  /** A node of the parsed document: an element with its tag name and children, or text. */
  datatype Node = Element(tag: string, children: seq<Node>) | Text(content: string)

  predicate IsElement(n: Node, tag: string) {
    n.Element? && n.tag == tag
  }

  /** QDomElement::text(): the text of every text node below the element, in document order. */
  function TextOf(n: Node): string
    decreases n, 1
  {
    match n
    case Text(content) => content
    case Element(_, children) => TextOfAll(children, n)
  }

  function TextOfAll(ns: seq<Node>, ghost parent: Node): string
    requires forall k :: 0 <= k < |ns| ==> ns[k] < parent
    decreases parent, 0, |ns|
  {
    if ns == [] then "" else TextOf(ns[0]) + TextOfAll(ns[1..], parent)
  }

  /** The index of the first child at `from` or later that is a `tag` element. */
  function FindElement(ns: seq<Node>, tag: string, from: nat): (r: Option<nat>)
    ensures r.Some? ==> from <= r.value < |ns| && IsElement(ns[r.value], tag)
    ensures r.Some? ==> forall j :: from <= j < r.value ==> !IsElement(ns[j], tag)
    ensures r.None? ==> forall j :: from <= j < |ns| ==> !IsElement(ns[j], tag)
    decreases |ns| - from
  {
    if from >= |ns| then None
    else if IsElement(ns[from], tag) then Some(from)
    else FindElement(ns, tag, from + 1)
  }

  /** firstChildElement(tag) on a possibly null element; the null element has no children. */
  function FirstChildElement(e: Option<Node>, tag: string): (r: Option<Node>)
    ensures r.Some? ==> IsElement(r.value, tag)
  {
    if e.None? || !e.value.Element? then None
    else match FindElement(e.value.children, tag, 0)
      case None => None
      case Some(k) => Some(e.value.children[k])
  }

  /** text() of a possibly null element: empty for the null element. */
  function TextOrEmpty(e: Option<Node>): string {
    if e.None? then "" else TextOf(e.value)
  }

  function TitleOf(track: Node): string {
    TextOrEmpty(FirstChildElement(Some(track), "title"))
  }

  function LocationOf(track: Node): string {
    TextOrEmpty(FirstChildElement(Some(track), "location"))
  }

  /** The children of the root's first trackList (none when the document does not parse). */
  function TrackListChildren(doc: Option<Node>): seq<Node> {
    match FirstChildElement(doc, "trackList")
    case None => []
    case Some(list) => list.children
  }

  /** The `track` elements among `ns`, in order. */
  function Tracks(ns: seq<Node>): (r: seq<Node>)
    ensures |r| <= |ns|
    ensures forall k :: 0 <= k < |r| ==> IsElement(r[k], "track")
  {
    if ns == [] then []
    else Tracks(ns[..|ns| - 1]) + (if IsElement(ns[|ns| - 1], "track") then [ns[|ns| - 1]] else [])
  }

  /** Title, then location, for each track in turn. */
  function Entries(tracks: seq<Node>): seq<string> {
    if tracks == [] then [] else [TitleOf(tracks[0]), LocationOf(tracks[0])] + Entries(tracks[1..])
  }

  /** What readXspf appends: the entries of the tracks of the first trackList of the root. */
  function XspfEntries(doc: Option<Node>): seq<string> {
    Entries(Tracks(TrackListChildren(doc)))
  }

  /** Two strings per track: the k-th track's title at 2k and its location at 2k + 1. */
  lemma {:induction false} EntriesShape(tracks: seq<Node>)
    ensures |Entries(tracks)| == 2 * |tracks|
    ensures forall k :: 0 <= k < |tracks| ==>
      Entries(tracks)[2 * k] == TitleOf(tracks[k]) && Entries(tracks)[2 * k + 1] == LocationOf(tracks[k])
  {
    if tracks != [] {
      EntriesShape(tracks[1..]);
      var e := Entries(tracks);
      assert e == [TitleOf(tracks[0]), LocationOf(tracks[0])] + Entries(tracks[1..]);
      forall k | 1 <= k < |tracks|
        ensures e[2 * k] == TitleOf(tracks[k]) && e[2 * k + 1] == LocationOf(tracks[k])
      {
        assert tracks[1..][k - 1] == tracks[k];
        assert e[2 * k] == Entries(tracks[1..])[2 * (k - 1)];
        assert e[2 * k + 1] == Entries(tracks[1..])[2 * (k - 1) + 1];
      }
    }
  }

  /** Entries of two runs of tracks are the entries of the first run followed by those of the second. */
  lemma {:induction false} EntriesAppend(a: seq<Node>, b: seq<Node>)
    ensures Entries(a + b) == Entries(a) + Entries(b)
  {
    if a == [] {
      assert a + b == b;
    } else {
      assert (a + b)[0] == a[0];
      assert (a + b)[1..] == a[1..] + b;
      EntriesAppend(a[1..], b);
    }
  }

  /** Children that are not tracks add no track. */
  lemma {:induction false} TracksSkip(ns: seq<Node>, d: nat, k: nat)
    requires d <= k <= |ns|
    requires forall j :: d <= j < k ==> !IsElement(ns[j], "track")
    ensures Tracks(ns[..k]) == Tracks(ns[..d])
    decreases k - d
  {
    if k > d {
      assert ns[..k][..k - 1] == ns[..k - 1];
      TracksSkip(ns, d, k - 1);
    }
  }

  /** Stepping from one track to the next: the track found at `k` is the next one added. */
  lemma TracksStep(ns: seq<Node>, d: nat, k: nat)
    requires FindElement(ns, "track", d) == Some(k)
    ensures Tracks(ns[..k + 1]) == Tracks(ns[..d]) + [ns[k]]
  {
    TracksSkip(ns, d, k);
    assert ns[..k + 1][..k] == ns[..k];
  }

  /**
    readXspf: nothing is appended when the document does not parse; otherwise the walk from
    the first `track` child of the first trackList over the following `track` siblings appends
    each one's title and location.
  */
  method ReadXspf(doc: Option<Node>, result: seq<string>) returns (out: seq<string>)
    ensures out == result + XspfEntries(doc)
  {
    out := result;
    if doc.None? {
      return;
    }
    out := WalkTracks(TrackListChildren(doc), result);
  }

  /** The while loop of readXspf: from the first `track` child, each `track` sibling in turn. */
  method WalkTracks(children: seq<Node>, result: seq<string>) returns (out: seq<string>)
    ensures out == result + Entries(Tracks(children))
  {
    out := result;
    var elem := FindElement(children, "track", 0);
    ghost var done: nat := 0;
    while elem.Some?
      invariant done <= |children|
      invariant elem == FindElement(children, "track", done)
      invariant out == result + Entries(Tracks(children[..done]))
      decreases |children| - done
    {
      var k := elem.value;
      var track := children[k];
      EntriesStep(children, done, k);
      out := out + [TitleOf(track), LocationOf(track)];
      done := k + 1;
      elem := FindElement(children, "track", k + 1);
    }
    EntriesDone(children, done);
  }

  /** The walk's step: the track found next contributes its title and location. */
  lemma EntriesStep(ns: seq<Node>, d: nat, k: nat)
    requires FindElement(ns, "track", d) == Some(k)
    ensures Entries(Tracks(ns[..k + 1])) == Entries(Tracks(ns[..d])) + [TitleOf(ns[k]), LocationOf(ns[k])]
  {
    TracksStep(ns, d, k);
    EntriesAppend(Tracks(ns[..d]), [ns[k]]);
    assert [ns[k]][1..] == [];
  }

  /** The walk's end: no track after the last one found. */
  lemma EntriesDone(ns: seq<Node>, d: nat)
    requires d <= |ns| && FindElement(ns, "track", d).None?
    ensures Entries(Tracks(ns)) == Entries(Tracks(ns[..d]))
  {
    TracksSkip(ns, d, |ns|);
    assert ns[..|ns|] == ns;
  }

  /** A document that does not parse adds nothing, and one without a trackList adds nothing
      either; otherwise the result grows by two strings per track. */
  lemma XspfEntriesCount(doc: Option<Node>)
    ensures doc.None? ==> XspfEntries(doc) == []
    ensures FirstChildElement(doc, "trackList").None? ==> XspfEntries(doc) == []
    ensures |XspfEntries(doc)| == 2 * |Tracks(TrackListChildren(doc))|
  {
    EntriesShape(Tracks(TrackListChildren(doc)));
  }

  // ---------------------------------------------------------------------------
  // saveCookies: one raw cookie to one Netscape line

  const CookieHeader: string :=
    "# Netscape HTTP Cookie File\n# http://curl.haxx.se/rfc/cookie_spec.html\n# This is a generated file!  Do not edit.\n\n"

  /** The name: the text before the first '='. */
  function CookieName(row: string): string {
    SectionFirst(row, "=")
  }

  /** The value: after the first '=', up to the first ';'. */
  function CookieValue(row: string): string {
    SectionFirst(SectionRest(row, "="), ";")
  }

  /** The domain: when the row mentions "domain" anywhere, the text after the first "domain="
      up to the next ';'; otherwise empty. */
  function CookieDomain(row: string): string {
    if Contains(row, "domain") then SectionFirst(SectionRest(row, "domain="), ";") else ""
  }

  /** The path, read the same way from "path" and "path=". */
  function CookiePath(row: string): string {
    if Contains(row, "path") then SectionFirst(SectionRest(row, "path="), ";") else ""
  }

  /** `fields` joined with `c` between neighbours. */
  function Join(fields: seq<string>, c: char): string
    requires |fields| >= 1
  {
    if |fields| == 1 then fields[0] else fields[0] + [c] + Join(fields[1..], c)
  }

  /** The line body: domain, TRUE, path, FALSE, an empty expiry, name and value, tab-separated. */
  function CookieRecord(row: string): string {
    Join([CookieDomain(row), "TRUE", CookiePath(row), "FALSE", "", CookieName(row), CookieValue(row)], '\t')
  }

  function CookieLine(row: string): string {
    CookieRecord(row) + "\n"
  }

  /** The bodies of the lines, one per cookie. */
  function CookieRecords(rows: seq<string>): seq<string> {
    seq(|rows|, k requires 0 <= k < |rows| => CookieRecord(rows[k]))
  }

  /** Each body followed by a newline. */
  function Terminated(bodies: seq<string>): string {
    if bodies == [] then "" else bodies[0] + "\n" + Terminated(bodies[1..])
  }

  /** The content written for the cookies, one line each. */
  function CookieLines(rows: seq<string>): string {
    Terminated(CookieRecords(rows))
  }

  /** A string cut at every `c`: the pieces in order (one piece when `c` does not occur). */
  function Split(s: string, c: char): (r: seq<string>)
    ensures |r| >= 1
    decreases |s|
  {
    if !Contains(s, [c]) then [s] else [SectionFirst(s, [c])] + Split(SectionRest(s, [c]), c)
  }

  /** A character occurs as a one-character pattern exactly when it is an element. */
  lemma ContainsChar(s: string, c: char)
    ensures Contains(s, [c]) <==> c in s
  {
    if c in s {
      var j :| 0 <= j < |s| && s[j] == c;
      assert OccursAt(s, [c], j) by { assert s[j..j + 1] == [c]; }
    }
    if Contains(s, [c]) {
      var j := IndexOf(s, [c]).value;
      assert s[j..j + 1] == [c];
      assert s[j] == c;
    }
  }

  /** Cutting `a + [c] + b` where `a` has no `c` gives `a`, then the pieces of `b`. */
  lemma SplitJoin(a: string, c: char, b: string)
    requires c !in a
    ensures Split(a + [c] + b, c) == [a] + Split(b, c)
  {
    var s := a + [c] + b;
    SectionOfJoin(a, c, b);
    ContainsChar(s, c);
    assert s[|a|] == c;
  }

  /** A string without `c` is one piece. */
  lemma SplitWhole(s: string, c: char)
    requires c !in s
    ensures Split(s, c) == [s]
  {
    ContainsChar(s, c);
  }

  /** Cutting a join of pieces free of `c` at `c` gives back the pieces. */
  lemma {:induction false} SplitOfJoin(fields: seq<string>, c: char)
    requires |fields| >= 1
    requires forall k :: 0 <= k < |fields| ==> c !in fields[k]
    ensures Split(Join(fields, c), c) == fields
  {
    if |fields| == 1 {
      SplitWhole(fields[0], c);
    } else {
      assert forall k :: 0 <= k < |fields| - 1 ==> fields[1..][k] == fields[k + 1];
      SplitOfJoin(fields[1..], c);
      SplitJoin(fields[0], c, Join(fields[1..], c));
    }
  }

  /** A join holds no character other than `c` that its pieces do not hold. */
  lemma {:induction false} JoinChars(fields: seq<string>, c: char, x: char)
    requires |fields| >= 1 && x != c
    requires forall k :: 0 <= k < |fields| ==> x !in fields[k]
    ensures x !in Join(fields, c)
  {
    if |fields| > 1 {
      assert forall k :: 0 <= k < |fields| - 1 ==> fields[1..][k] == fields[k + 1];
      JoinChars(fields[1..], c, x);
    }
  }

  /** Every character of a section occurs in the string it was cut from. */
  lemma SectionChars(s: string, sep: string, x: char)
    requires x !in s
    ensures x !in SectionFirst(s, sep) && x !in SectionRest(s, sep)
  {
    var f := SectionFirst(s, sep);
    if IndexOf(s, sep).Some? {
      var i := IndexOf(s, sep).value;
      assert f == s[..i];
      assert forall k :: 0 <= k < |f| ==> f[k] == s[k];
    }
    var r := SectionRest(s, sep);
    if Contains(s, sep) {
      assert forall k :: 0 <= k < |r| ==> r[k] == s[|s| - |r| + k];
    }
  }

  /** No field of the line can hold a character the raw cookie does not. */
  lemma CookieFieldChars(row: string, x: char)
    requires x !in row
    ensures x !in CookieName(row) && x !in CookieValue(row)
    ensures x !in CookieDomain(row) && x !in CookiePath(row)
  {
    SectionChars(row, "=", x);
    SectionChars(SectionRest(row, "="), ";", x);
    SectionChars(row, "domain=", x);
    SectionChars(SectionRest(row, "domain="), ";", x);
    SectionChars(row, "path=", x);
    SectionChars(SectionRest(row, "path="), ";", x);
  }

  /** For a raw cookie without tabs, the line's body cuts into domain, TRUE, path, FALSE, an empty
      expiry, name and value; a raw cookie without newlines gives a body without newlines. */
  lemma CookieLineFields(row: string)
    requires '\t' !in row
    ensures Split(CookieRecord(row), '\t') ==
      [CookieDomain(row), "TRUE", CookiePath(row), "FALSE", "", CookieName(row), CookieValue(row)]
    ensures '\n' !in row ==> '\n' !in CookieRecord(row)
  {
    var fields := [CookieDomain(row), "TRUE", CookiePath(row), "FALSE", "", CookieName(row), CookieValue(row)];
    CookieFieldChars(row, '\t');
    RecordFieldsFree(CookieDomain(row), CookiePath(row), CookieName(row), CookieValue(row), '\t');
    SplitOfJoin(fields, '\t');
    if '\n' !in row {
      CookieFieldChars(row, '\n');
      RecordFieldsFree(CookieDomain(row), CookiePath(row), CookieName(row), CookieValue(row), '\n');
      JoinChars(fields, '\t', '\n');
    }
  }

  /** The constant fields of a line hold neither a tab nor a newline. */
  lemma RecordFieldsFree(d: string, p: string, n: string, v: string, x: char)
    requires x == '\t' || x == '\n'
    requires x !in d && x !in p && x !in n && x !in v
    ensures forall k :: 0 <= k < 7 ==> x !in [d, "TRUE", p, "FALSE", "", n, v][k]
  {
    var fields := [d, "TRUE", p, "FALSE", "", n, v];
    assert x !in "TRUE" by { assert "TRUE" == ['T', 'R', 'U', 'E']; }
    assert x !in "FALSE" by { assert "FALSE" == ['F', 'A', 'L', 'S', 'E']; }
    forall k | 0 <= k < 7
      ensures x !in fields[k]
    {
      if k == 0 { assert fields[k] == d; }
      else if k == 1 { assert fields[k] == "TRUE"; }
      else if k == 2 { assert fields[k] == p; }
      else if k == 3 { assert fields[k] == "FALSE"; }
      else if k == 4 { assert fields[k] == ""; }
      else if k == 5 { assert fields[k] == n; }
      else { assert fields[k] == v; }
    }
  }

  /** The name is what precedes the first '=' and the value runs up to the first ';'. */
  lemma CookieNameValue(name: string, value: string, attributes: string)
    requires '=' !in name && ';' !in value
    requires attributes == [] || attributes[0] == ';'
    ensures CookieName(name + "=" + value + attributes) == name
    ensures CookieValue(name + "=" + value + attributes) == value
  {
    var row := name + "=" + value + attributes;
    assert row == name + ['='] + (value + attributes);
    SectionOfJoin(name, '=', value + attributes);
    if attributes == [] {
      assert value + attributes == value;
      ContainsChar(value, ';');
    } else {
      assert value + attributes == value + [';'] + attributes[1..];
      SectionOfJoin(value, ';', attributes[1..]);
    }
  }

  /** A row that never mentions the attributes gives empty domain and path fields. */
  lemma CookieMissingAttributes(row: string)
    requires !Contains(row, "domain") && !Contains(row, "path")
    ensures CookieRecord(row) == Join(["", "TRUE", "", "FALSE", "", CookieName(row), CookieValue(row)], '\t')
  {
  }

  /** One line per cookie: cutting the content at newlines gives each cookie's record and a
      final empty piece, for raw cookies without tabs or newlines. */
  lemma CookieLinesSplit(rows: seq<string>)
    requires forall k :: 0 <= k < |rows| ==> '\n' !in rows[k] && '\t' !in rows[k]
    ensures Split(CookieLines(rows), '\n') == CookieRecords(rows) + [""]
  {
    var records := CookieRecords(rows);
    forall k | 0 <= k < |rows|
      ensures '\n' !in records[k]
    {
      CookieLineFields(rows[k]);
    }
    SplitTerminated(records);
  }

  /** Cutting newline-terminated bodies without newlines at the newlines gives the bodies and
      a final empty piece. */
  lemma {:induction false} SplitTerminated(bodies: seq<string>)
    requires forall k :: 0 <= k < |bodies| ==> '\n' !in bodies[k]
    ensures Split(Terminated(bodies), '\n') == bodies + [""]
  {
    if bodies == [] {
      SplitWhole("", '\n');
    } else {
      var rest := bodies[1..];
      assert forall k :: 0 <= k < |rest| ==> rest[k] == bodies[k + 1];
      SplitTerminated(rest);
      TerminatedCons(bodies);
      SplitLinesStep(bodies[0], Terminated(rest), rest);
    }
  }

  /** One more line in front: its body is one more piece in front. */
  lemma SplitLinesStep(r: string, rest: string, records: seq<string>)
    requires '\n' !in r
    requires Split(rest, '\n') == records + [""]
    ensures Split(r + ['\n'] + rest, '\n') == [r] + records + [""]
  {
    SplitJoin(r, '\n', rest);
    assert [r] + (records + [""]) == [r] + records + [""];
  }

  lemma TerminatedCons(bodies: seq<string>)
    requires bodies != []
    ensures Terminated(bodies) == bodies[0] + ['\n'] + Terminated(bodies[1..])
    ensures bodies == [bodies[0]] + bodies[1..]
  {
  }

  /** The content is empty exactly when there are no cookies: every line ends with a newline. */
  lemma CookieLinesEmpty(rows: seq<string>)
    ensures CookieLines(rows) == "" <==> rows == []
  {
    var records := CookieRecords(rows);
    if rows != [] {
      assert |Terminated(records)| >= |records[0] + "\n"|;
    }
  }

  /** The loop's step: the next body and its newline move from what is left to the content. */
  lemma TerminatedStep(bodies: seq<string>, i: nat, content: string)
    requires i < |bodies|
    requires content + Terminated(bodies[i..]) == Terminated(bodies)
    ensures (content + (bodies[i] + "\n")) + Terminated(bodies[i + 1..]) == Terminated(bodies)
  {
    assert bodies[i..][1..] == bodies[i + 1..];
    assert Terminated(bodies[i..]) == bodies[i] + "\n" + Terminated(bodies[i + 1..]);
  }

  /** The mozilla line of each cookie appended, then the header and the content written when
      there is content and the file opens; `saved` mirrors the return value. */
  method SaveCookies(rows: seq<string>, fileOpens: bool) returns (saved: bool, written: string)
    ensures saved <==> rows != [] && fileOpens
    ensures written == if saved then CookieHeader + CookieLines(rows) else ""
  {
    ghost var records := CookieRecords(rows);
    var content := "";
    var i := 0;
    while i < |rows|
      invariant 0 <= i <= |rows|
      invariant content + Terminated(records[i..]) == Terminated(records)
    {
      TerminatedStep(records, i, content);
      content := content + CookieLine(rows[i]);
      i := i + 1;
    }
    assert records[i..] == [];
    CookieLinesEmpty(rows);
    if content == "" {
      return false, "";
    }
    if !fileOpens {
      return false, "";
    }
    return true, CookieHeader + content;
  }
}
