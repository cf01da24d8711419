/** Lines of a histogram log: how an entry is printed, and the state machine that
    reads one back from a stream. */
module LogLines {
  import opened Basics
  import Base64

  datatype Timespec = Timespec(sec: int, nsec: int)

  // ----- printing, hdr_histogram_log.c:866-877 -----

  function Digit(d: nat): char
    requires d < 10
  {
    '0' + d as char
  }

  predicate IsDigit(c: char) {
    '0' <= c <= '9'
  }

  function DigitValue(c: char): (d: nat)
    requires IsDigit(c)
    ensures d < 10
  {
    c as int - '0' as int
  }

  function Decimal(n: nat): (s: string)
    ensures s != []
  {
    if n < 10 then [Digit(n)] else Decimal(n / 10) + [Digit(n % 10)]
  }

  /** A whole number of milliseconds in seconds, to three places. */
  function Millis(ms: nat): string {
    Decimal(ms / 1000) + "." + [Digit(ms / 100 % 10), Digit(ms / 10 % 10), Digit(ms % 10)]
  }

  /** What an entry prints; the tag is the whole tag buffer, if there is one. */
  datatype Line = Line(tag: Option<seq<char>>, startMs: nat, intervalMs: nat, max: nat, base64: string)

  /** has_tag: a buffer, and not of length 0. */
  predicate HasTag(tag: Option<seq<char>>) {
    tag.Some? && 0 < |tag.value|
  }

  /** What "%.*s" prints of a buffer: up to its terminator or its end. */
  function CString(buffer: seq<char>): (s: string)
    ensures s <= buffer && '\0' !in s
    ensures s == buffer || buffer[|s|] == '\0'
  {
    if buffer == [] || buffer[0] == '\0' then []
    else
      var s := CString(buffer[1..]);
      assert buffer == [buffer[0]] + buffer[1..];
      [buffer[0]] + s
  }

  function TagPart(tag: Option<seq<char>>): string {
    if HasTag(tag) then "Tag=" + CString(tag.value) + "," else ""
  }

  function FormatLine(line: Line): (s: string) {
    TagPart(line.tag) + Millis(line.startMs) + "," + Millis(line.intervalMs) + ","
    + Decimal(line.max) + ".0," + line.base64 + "\n"
  }

  // ----- reading, hdr_histogram_log.c:1010-1203 -----

  /** Outcome of reading a fixed prefix or a number: whether it was there, what
      it was, and where the stream then stands. */
  datatype Ahead<T> = Ahead(ok: bool, value: T, next: nat)

  /** read_ahead */
  function MatchAhead(text: string, pos: nat, prefix: string): (a: Ahead<()>)
    requires pos <= |text|
    ensures pos <= a.next <= |text|
    decreases |prefix|
  {
    if prefix == [] then Ahead(true, (), pos)
    else if pos == |text| then Ahead(false, (), pos)
    else if text[pos] != prefix[0] then Ahead(false, (), pos + 1)
    else MatchAhead(text, pos + 1, prefix[1..])
  }

  /** The variables of read_ahead_timestamp. */
  datatype Number = Number(isSeconds: bool, sec: int, nsec: int, multiplier: int)

  const ZERO_NUMBER := Number(true, 0, 0, 1000000000)

  function AddDigit(n: Number, c: char): Number
    requires IsDigit(c)
  {
    if n.isSeconds then n.(sec := n.sec * 10 + DigitValue(c))
    else n.(nsec := n.nsec * 10 + DigitValue(c), multiplier := n.multiplier / 10)
  }

  /** read_ahead_timestamp from a position on; a failure leaves the time unset. */
  function StampAhead(text: string, pos: nat, terminator: char, n: Number): (a: Ahead<Option<Timespec>>)
    requires pos <= |text|
    ensures pos <= a.next <= |text|
    ensures a.ok == a.value.Some? && (a.ok ==> pos < a.next)
    decreases |text| - pos
  {
    if pos == |text| then Ahead(false, None, pos)
    else
      var c := text[pos];
      if c == terminator then Ahead(true, Some(Timespec(n.sec, n.nsec * n.multiplier)), pos + 1)
      else if c == '.' then StampAhead(text, pos + 1, terminator, n.(isSeconds := false))
      else if IsDigit(c) then StampAhead(text, pos + 1, terminator, AddDigit(n, c))
      else Ahead(false, None, pos + 1)
  }

  datatype Phase = Init | Tag | BeginTimestamp | Interval | Max | Histogram

  /** The caller's entry, with the reader's tag offset and the base64 text so far.
      The tag is the buffer's content. */
  datatype Entry = Entry(
    tag: seq<char>,
    offset: nat,
    start: Timespec,
    interval: Timespec,
    max: Timespec,
    base64: string)

  datatype Outcome = Done(entry: Entry, next: nat) | Failed(rc: int, entry: Entry, next: nat)

  /** Stores one character of the tag, if the buffer has room for it. */
  function StoreTag(e: Entry, c: char): Entry {
    if e.offset < |e.tag| then e.(tag := e.tag[e.offset := c], offset := e.offset + 1) else e
  }

  function CloseTag(e: Entry): Entry {
    if e.offset < |e.tag| then e.(tag := e.tag[e.offset := '\0']) else e
  }

  predicate EndsLine(c: char) {
    c == '\r' || c == '\n'
  }

  /** The loop of hdr_log_read_entry from one state on. Every turn consumes input
      or leaves the initial state. */
  function Scan(text: string, pos: nat, phase: Phase, e: Entry): (o: Outcome)
    requires pos <= |text|
    ensures pos <= o.next <= |text| && (o.Failed? ==> o.rc == EOF || o.rc == -EINVAL)
    decreases |text| - pos, if phase.Init? then 1 else 0
  {
    match phase
    case Init =>
      if pos == |text| then Failed(EOF, e, pos)
      else if text[pos] == 'T' then
        var a := MatchAhead(text, pos + 1, "ag=");
        if a.ok then Scan(text, a.next, Tag, e) else Failed(-EINVAL, e, a.next)
      else if IsDigit(text[pos]) then Scan(text, pos, BeginTimestamp, e)
      else if EndsLine(text[pos]) then Scan(text, pos + 1, Init, e)
      else Failed(-EINVAL, e, pos + 1)
    case Tag =>
      if pos == |text| then Failed(-EINVAL, e, pos)
      else if text[pos] == ',' then Scan(text, pos + 1, BeginTimestamp, CloseTag(e))
      else if EndsLine(text[pos]) then Failed(-EINVAL, e, pos + 1)
      else Scan(text, pos + 1, Tag, StoreTag(e, text[pos]))
    case BeginTimestamp =>
      var a := StampAhead(text, pos, ',', ZERO_NUMBER);
      if a.ok then Scan(text, a.next, Interval, e.(start := a.value.value)) else Failed(-EINVAL, e, a.next)
    case Interval =>
      var a := StampAhead(text, pos, ',', ZERO_NUMBER);
      if a.ok then Scan(text, a.next, Max, e.(interval := a.value.value)) else Failed(-EINVAL, e, a.next)
    case Max =>
      var a := StampAhead(text, pos, ',', ZERO_NUMBER);
      if a.ok then Scan(text, a.next, Histogram, e.(max := a.value.value)) else Failed(-EINVAL, e, a.next)
    case Histogram =>
      if pos == |text| then Done(e, pos)
      else if EndsLine(text[pos]) then Done(e, pos + 1)
      else Scan(text, pos + 1, Histogram, e.(base64 := e.base64 + [text[pos]]))
  }

  // ----- a printed line reads back -----

  /** The text from pos on begins with p. */
  predicate At(text: string, pos: nat, p: string) {
    pos + |p| <= |text| && text[pos..pos + |p|] == p
  }

  lemma AtSplit(text: string, pos: nat, p: string, q: string)
    ensures At(text, pos, p + q) <==> At(text, pos, p) && At(text, pos + |p|, q)
  {
    if pos + |p| + |q| <= |text| {
      var both := text[pos..pos + |p| + |q|];
      assert both == text[pos..pos + |p|] + text[pos + |p|..pos + |p| + |q|];
      assert both[..|p|] == text[pos..pos + |p|] && both[|p|..] == text[pos + |p|..pos + |p| + |q|];
      assert (p + q)[..|p|] == p && (p + q)[|p|..] == q;
    }
  }

  predicate AllDigits(d: string) {
    forall i :: 0 <= i < |d| ==> IsDigit(d[i])
  }

  function AddDigits(n: Number, d: string): Number
    requires AllDigits(d)
    decreases |d|
  {
    if d == [] then n else AddDigit(AddDigits(n, d[..|d| - 1]), d[|d| - 1])
  }

  /** A run of digits is read one by one. */
  lemma {:induction false} DigitsAhead(text: string, pos: nat, n: Number, d: string)
    requires At(text, pos, d) && AllDigits(d)
    ensures StampAhead(text, pos, ',', n) == StampAhead(text, pos + |d|, ',', AddDigits(n, d))
    decreases |d|
  {
    if d != [] {
      var k := |d| - 1;
      assert d == d[..k] + [d[k]];
      AtSplit(text, pos, d[..k], [d[k]]);
      DigitsAhead(text, pos, n, d[..k]);
      assert text[pos + k] == text[pos + k..pos + k + 1][0] == d[k];
    }
  }

  /** The digits printed for a number add up to it again. */
  lemma {:induction false} DecimalReadsBack(n: Number, k: nat)
    requires n.isSeconds && n.sec == 0
    ensures AllDigits(Decimal(k)) && AddDigits(n, Decimal(k)) == n.(sec := k)
    decreases k
  {
    if k >= 10 {
      DecimalReadsBack(n, k / 10);
      var d := Decimal(k);
      assert d[..|d| - 1] == Decimal(k / 10);
    } else {
      assert Decimal(k)[..0] == [];
    }
  }

  /** A decimal number with its comma: the whole part, then the fraction. */
  lemma DecimalAhead(text: string, pos: nat, whole: nat, fraction: string)
    requires AllDigits(fraction) && At(text, pos, Decimal(whole) + "." + fraction + ",")
    ensures var n := AddDigits(Number(false, whole, 0, 1000000000), fraction);
            StampAhead(text, pos, ',', ZERO_NUMBER)
            == Ahead(true, Some(Timespec(n.sec, n.nsec * n.multiplier)), pos + |Decimal(whole)| + |fraction| + 2)
  {
    hide Decimal, AddDigits, StampAhead, At, AllDigits;
    var d := Decimal(whole);
    AtSplit(text, pos, d + "." + fraction, ",");
    AtSplit(text, pos, d + ".", fraction);
    AtSplit(text, pos, d, ".");
    DecimalReadsBack(ZERO_NUMBER, whole);
    DigitsAhead(text, pos, ZERO_NUMBER, d);
    var p := pos + |d|;
    PointAhead(text, p, Number(true, whole, 0, 1000000000));
    DigitsAhead(text, p + 1, Number(false, whole, 0, 1000000000), fraction);
    CommaAhead(text, p + 1 + |fraction|, AddDigits(Number(false, whole, 0, 1000000000), fraction));
  }

  lemma PointAhead(text: string, pos: nat, n: Number)
    requires At(text, pos, ".")
    ensures pos < |text| && StampAhead(text, pos, ',', n) == StampAhead(text, pos + 1, ',', n.(isSeconds := false))
  {
    OneAhead(text, pos, '.');
  }

  lemma CommaAhead(text: string, pos: nat, n: Number)
    requires At(text, pos, ",")
    ensures pos < |text|
    ensures StampAhead(text, pos, ',', n) == Ahead(true, Some(Timespec(n.sec, n.nsec * n.multiplier)), pos + 1)
  {
    OneAhead(text, pos, ',');
  }

  lemma OneAhead(text: string, pos: nat, c: char)
    requires At(text, pos, [c])
    ensures pos < |text| && text[pos] == c
  {
    assert text[pos] == text[pos..pos + 1][0];
  }

  function TimeOf(ms: nat): Timespec {
    Timespec(ms / 1000, ms % 1000 * 1000000)
  }

  lemma MillisAhead(text: string, pos: nat, ms: nat)
    requires At(text, pos, Millis(ms) + ",")
    ensures StampAhead(text, pos, ',', ZERO_NUMBER) == Ahead(true, Some(TimeOf(ms)), pos + |Millis(ms)| + 1)
  {
    hide Decimal, StampAhead;
    var f := [Digit(ms / 100 % 10), Digit(ms / 10 % 10), Digit(ms % 10)];
    assert Decimal(ms / 1000) + "." + f + "," == Millis(ms) + ",";
    DecimalAhead(text, pos, ms / 1000, f);
    ThreeDigits(Number(false, ms / 1000, 0, 1000000000), f);
    ThreePlaces(ms);
  }

  lemma ThreeDigits(n: Number, f: string)
    requires |f| == 3 && AllDigits(f) && n == Number(false, n.sec, 0, 1000000000)
    ensures AddDigits(n, f)
         == Number(false, n.sec, DigitValue(f[0]) * 100 + DigitValue(f[1]) * 10 + DigitValue(f[2]), 1000000)
  {
    assert f[..2][..1] == f[..1] && f[..1][..0] == [];
    assert AddDigits(n, f[..0]) == n;
    assert AddDigits(n, f[..1]) == AddDigit(n, f[0]);
    assert AddDigits(n, f[..2]) == AddDigit(AddDigit(n, f[0]), f[1]);
  }

  lemma ThreePlaces(ms: nat)
    ensures ms / 100 % 10 * 100 + ms / 10 % 10 * 10 + ms % 10 == ms % 1000
  {
    assert ms / 100 == ms / 10 / 10 && ms / 1000 == ms / 100 / 10;
  }

  lemma MaxAhead(text: string, pos: nat, max: nat)
    requires At(text, pos, Decimal(max) + ".0,")
    ensures StampAhead(text, pos, ',', ZERO_NUMBER) == Ahead(true, Some(Timespec(max, 0)), pos + |Decimal(max)| + 3)
  {
    hide Decimal, StampAhead;
    assert Decimal(max) + "." + "0" + "," == Decimal(max) + ".0,";
    DecimalAhead(text, pos, max, "0");
    assert "0"[..0] == [];
  }

  predicate CleanTag(t: string) {
    forall i :: 0 <= i < |t| ==> t[i] != ',' && !EndsLine(t[i])
  }

  predicate CleanText(t: string) {
    forall i :: 0 <= i < |t| ==> !EndsLine(t[i])
  }

  /** What a buffer holds after a tag was read into it: the tag and a terminator,
      or as much of the tag as fits. */
  function TagBuffer(buffer: seq<char>, t: string): seq<char> {
    if |t| < |buffer| then t + ['\0'] + buffer[|t| + 1..] else t[..|buffer|]
  }

  /** From the k-th character on, the rest of the tag is stored and closed. */
  lemma {:induction false} TagAhead(text: string, pos: nat, t: string, k: nat, buffer: seq<char>, e: Entry)
    requires k <= |t| && CleanTag(t) && At(text, pos, t[k..] + ",")
    requires |e.tag| == |buffer| && e.offset == (if k < |buffer| then k else |buffer|)
    requires e.tag == t[..e.offset] + buffer[e.offset..]
    ensures Scan(text, pos, Tag, e)
            == Scan(text, pos + |t| - k + 1, BeginTimestamp,
                    e.(tag := TagBuffer(buffer, t), offset := if |t| < |buffer| then |t| else |buffer|))
    decreases |t| - k
  {
    hide StampAhead, MatchAhead;
    if k == |t| {
      OneAhead(text, pos, ',');
      var e' := CloseTag(e);
      assert e'.tag == TagBuffer(buffer, t);
    } else {
      assert t[k..] + "," == [t[k]] + (t[k + 1..] + ",");
      AtSplit(text, pos, [t[k]], t[k + 1..] + ",");
      OneAhead(text, pos, t[k]);
      var e' := StoreTag(e, t[k]);
      assert e'.tag == t[..e'.offset] + buffer[e'.offset..];
      TagAhead(text, pos + 1, t, k + 1, buffer, e');
    }
  }

  lemma {:induction false} TextAhead(text: string, pos: nat, b: string, e: Entry)
    requires CleanText(b) && At(text, pos, b + "\n")
    ensures Scan(text, pos, Histogram, e) == Done(e.(base64 := e.base64 + b), pos + |b| + 1)
    decreases |b|
  {
    hide StampAhead, MatchAhead;
    if b == [] {
      OneAhead(text, pos, '\n');
      assert e.base64 + b == e.base64;
    } else {
      assert b + "\n" == [b[0]] + (b[1..] + "\n");
      AtSplit(text, pos, [b[0]], b[1..] + "\n");
      OneAhead(text, pos, b[0]);
      TextAhead(text, pos + 1, b[1..], e.(base64 := e.base64 + [b[0]]));
      assert e.base64 + [b[0]] + b[1..] == e.base64 + b;
    }
  }

  predicate CleanLine(line: Line) {
    (HasTag(line.tag) ==> CleanTag(CString(line.tag.value))) && CleanText(line.base64)
  }

  /** What a fresh read of a line leaves in the entry. */
  function EntryOf(line: Line, buffer: seq<char>): (e: Entry)
  {
    var t := if HasTag(line.tag) then CString(line.tag.value) else "";
    var tag := if HasTag(line.tag) then TagBuffer(buffer, t) else buffer;
    Entry(tag, if |t| < |buffer| then |t| else |buffer|,
          TimeOf(line.startMs), TimeOf(line.intervalMs), Timespec(line.max, 0), line.base64)
  }

  predicate Fresh(e: Entry) {
    e.offset == 0 && e.base64 == ""
  }

  /** After the tag: the three numbers and the base64 text. */
  function Numbers(line: Line): string {
    Millis(line.startMs) + "," + (Millis(line.intervalMs) + "," + (Decimal(line.max) + ".0," + (line.base64 + "\n")))
  }

  lemma NumbersAhead(text: string, pos: nat, line: Line, e: Entry)
    requires CleanText(line.base64) && At(text, pos, Numbers(line))
    ensures Scan(text, pos, BeginTimestamp, e)
            == Done(e.(start := TimeOf(line.startMs), interval := TimeOf(line.intervalMs), max := Timespec(line.max, 0),
                       base64 := e.base64 + line.base64), pos + |Numbers(line)|)
  {
    hide StampAhead, At, Decimal, Millis, TimeOf, CleanText;
    var s, i := Millis(line.startMs) + ",", Millis(line.intervalMs) + ",";
    var m, b := Decimal(line.max) + ".0,", line.base64 + "\n";
    AtSplit(text, pos, s, i + (m + b));
    AtSplit(text, pos + |s|, i, m + b);
    AtSplit(text, pos + |s| + |i|, m, b);
    MillisAhead(text, pos, line.startMs);
    MillisAhead(text, pos + |s|, line.intervalMs);
    MaxAhead(text, pos + |s| + |i|, line.max);
    var e' := e.(start := TimeOf(line.startMs), interval := TimeOf(line.intervalMs), max := Timespec(line.max, 0));
    var p := pos + |s| + |i|;
    assert Scan(text, p, Max, e'.(max := e.max)) == Scan(text, p + |m|, Histogram, e');
    assert Scan(text, pos + |s|, Interval, e.(start := e'.start)) == Scan(text, p, Max, e'.(max := e.max));
    TextAhead(text, p + |m|, line.base64, e');
  }

  lemma FormatParts(line: Line)
    ensures FormatLine(line) == TagPart(line.tag) + Numbers(line)
  {
    hide Millis, Decimal;
    var s, i := Millis(line.startMs) + ",", Millis(line.intervalMs) + ",";
    var m, b := Decimal(line.max) + ".0,", line.base64 + "\n";
    assert FormatLine(line) == TagPart(line.tag) + s + i + m + b;
    assert TagPart(line.tag) + s + i + m + b == TagPart(line.tag) + (s + (i + (m + b)));
  }

  /** A printed line, wherever it stands in the stream, reads back to its tag,
      times, maximum and text, and the stream is left just behind it. */
  lemma LineReadsBack(text: string, pos: nat, line: Line, e: Entry)
    requires CleanLine(line) && Fresh(e) && At(text, pos, FormatLine(line))
    ensures Scan(text, pos, Init, e) == Done(EntryOf(line, e.tag), pos + |FormatLine(line)|)
  {
    hide StampAhead, Numbers, At, Millis, Decimal, TimeOf, CleanText, CleanTag, TagBuffer, CString;
    FormatParts(line);
    AtSplit(text, pos, TagPart(line.tag), Numbers(line));
    if !HasTag(line.tag) {
      NumbersAhead(text, pos, line, e);
      FirstDigit(text, pos, line);
    } else {
      var t := CString(line.tag.value);
      TagPartAhead(text, pos, t, e);
      NumbersAhead(text, pos + |TagPart(line.tag)|, line, Tagged(e, t));
    }
  }

  /** The entry after its tag was read. */
  function Tagged(e: Entry, t: string): Entry {
    e.(tag := TagBuffer(e.tag, t), offset := if |t| < |e.tag| then |t| else |e.tag|)
  }

  lemma TagPartAhead(text: string, pos: nat, t: string, e: Entry)
    requires CleanTag(t) && e.offset == 0 && At(text, pos, "Tag=" + t + ",")
    ensures Scan(text, pos, Init, e) == Scan(text, pos + |t| + 5, BeginTimestamp, Tagged(e, t))
  {
    hide Scan, At, TagBuffer, CleanTag;
    assert "Tag=" + t + "," == "Tag=" + (t + ",");
    AtSplit(text, pos, "Tag=", t + ",");
    TagStart(text, pos, e);
    assert t[0..] == t && e.tag == t[..0] + e.tag[0..];
    TagAhead(text, pos + 4, t, 0, e.tag, e);
  }

  lemma TagStart(text: string, pos: nat, e: Entry)
    requires At(text, pos, "Tag=")
    ensures Scan(text, pos, Init, e) == Scan(text, pos + 4, Tag, e)
  {
    assert "Tag=" == text[pos..pos + 4];
    assert text[pos] == 'T' && text[pos + 1] == 'a' && text[pos + 2] == 'g' && text[pos + 3] == '=';
    assert "ag="[1..] == "g=" && "g="[1..] == "=" && "="[1..] == "";
    assert MatchAhead(text, pos + 3, "=") == Ahead(true, (), pos + 4);
    assert MatchAhead(text, pos + 2, "g=") == Ahead(true, (), pos + 4);
    assert MatchAhead(text, pos + 1, "ag=") == Ahead(true, (), pos + 4);
  }

  lemma FirstDigit(text: string, pos: nat, line: Line)
    requires At(text, pos, Numbers(line))
    ensures pos < |text| && IsDigit(text[pos])
  {
    hide At;
    var d := Decimal(line.startMs / 1000);
    DecimalReadsBack(ZERO_NUMBER, line.startMs / 1000);
    assert Numbers(line)[0] == d[0];
    FirstOf(text, pos, Numbers(line));
  }

  lemma FirstOf(text: string, pos: nat, p: string)
    requires At(text, pos, p) && p != []
    ensures pos < |text| && text[pos] == p[0]
  {
    assert text[pos] == text[pos..pos + |p|][0];
  }

  /** The tag comes back as a terminated string exactly when it is shorter than
      the buffer. */
  lemma TagReadsBackIff(text: string, pos: nat, line: Line, e: Entry)
    requires HasTag(line.tag) && CleanLine(line) && Fresh(e) && At(text, pos, FormatLine(line))
    ensures var t := CString(line.tag.value);
            t + ['\0'] <= Scan(text, pos, Init, e).entry.tag <==> |t| < |e.tag|
    ensures var t, tag := CString(line.tag.value), Scan(text, pos, Init, e).entry.tag;
            && |tag| == |e.tag|
            && (|t| < |e.tag| ==> tag[|t| + 1..] == e.tag[|t| + 1..])
            && (|t| >= |e.tag| ==> tag == t[..|e.tag|])
  {
    hide Scan, At, FormatLine, CleanLine, CString;
    LineReadsBack(text, pos, line, e);
  }

  /** A tag as long as the buffer is read without its terminator. */
  lemma UnterminatedTag(e: Entry)
    requires Fresh(e) && |e.tag| == 2
    ensures var line := Line(Some("ab"), 0, 0, 0, "");
            Scan(FormatLine(line), 0, Init, e).entry.tag == "ab"
  {
    var line := Line(Some("ab"), 0, 0, 0, "");
    assert "ab"[1..] == "b" && "b"[1..] == "" && CString("b") == "b" && CString("ab") == "ab";
    hide Scan, FormatLine, CString;
    LineReadsBack(FormatLine(line), 0, line, e);
  }

  // ----- what is skipped, what is refused -----

  /** Nothing but line ends from one position up to another. */
  predicate OnlyLineEnds(text: string, pos: nat, end: nat) {
    pos <= end <= |text| && forall k :: pos <= k < end ==> text[k] == '\r' || text[k] == '\n'
  }

  lemma {:induction false} LineEndsSkipped(text: string, pos: nat, end: nat, e: Entry)
    requires OnlyLineEnds(text, pos, end)
    ensures Scan(text, pos, Init, e) == Scan(text, end, Init, e)
    decreases end - pos
  {
    hide StampAhead, MatchAhead;
    if pos < end { LineEndsSkipped(text, pos + 1, end, e); }
  }

  /** Once it has begun, a line is never taken for the end of the stream. */
  lemma {:induction false} NoEofInside(text: string, pos: nat, phase: Phase, e: Entry)
    requires pos <= |text| && phase != Init
    ensures var o := Scan(text, pos, phase, e); o.Failed? ==> o.rc == -EINVAL
    decreases |text| - pos
  {
    hide MatchAhead;
    if phase == Tag {
      if pos < |text| && text[pos] == ',' {
        NoEofInside(text, pos + 1, BeginTimestamp, CloseTag(e));
      } else if pos < |text| && !EndsLine(text[pos]) {
        NoEofInside(text, pos + 1, Tag, StoreTag(e, text[pos]));
      }
    } else if phase == Histogram {
      if pos < |text| && !EndsLine(text[pos]) {
        NoEofInside(text, pos + 1, Histogram, e.(base64 := e.base64 + [text[pos]]));
      }
    } else {
      var a := StampAhead(text, pos, ',', ZERO_NUMBER);
      hide StampAhead;
      if a.ok && phase == BeginTimestamp {
        NoEofInside(text, a.next, Interval, e.(start := a.value.value));
      } else if a.ok && phase == Interval {
        NoEofInside(text, a.next, Max, e.(interval := a.value.value));
      } else if a.ok {
        NoEofInside(text, a.next, Histogram, e.(max := a.value.value));
      }
    }
  }

  /** EOF is reported exactly when only line ends are left. */
  lemma {:induction false} EofIff(text: string, pos: nat, e: Entry)
    requires pos <= |text|
    ensures var o := Scan(text, pos, Init, e);
            o.Failed? && o.rc == EOF <==> OnlyLineEnds(text, pos, |text|)
    decreases |text| - pos
  {
    hide StampAhead;
    if pos < |text| && EndsLine(text[pos]) {
      EofIff(text, pos + 1, e);
    } else if pos < |text| && text[pos] == 'T' {
      var a := MatchAhead(text, pos + 1, "ag=");
      hide MatchAhead;
      if a.ok { NoEofInside(text, a.next, Tag, e); }
    } else if pos < |text| && IsDigit(text[pos]) {
      NoEofInside(text, pos, BeginTimestamp, e);
    }
  }

  /** A line that begins with neither T nor a digit is refused. */
  lemma ForeignStartRefused(text: string, pos: nat, start: nat, e: Entry)
    requires OnlyLineEnds(text, pos, start) && start < |text|
    requires text[start] != 'T' && !IsDigit(text[start]) && !EndsLine(text[start])
    ensures Scan(text, pos, Init, e) == Failed(-EINVAL, e, start + 1)
  {
    hide StampAhead, MatchAhead;
    LineEndsSkipped(text, pos, start, e);
  }

  /** A prefix is found exactly when it stands there. */
  lemma {:induction false} MatchIff(text: string, pos: nat, prefix: string)
    requires pos <= |text|
    ensures MatchAhead(text, pos, prefix).ok <==> At(text, pos, prefix)
    ensures MatchAhead(text, pos, prefix).ok ==> MatchAhead(text, pos, prefix).next == pos + |prefix|
    decreases |prefix|
  {
    if prefix != [] {
      assert prefix == [prefix[0]] + prefix[1..];
      AtSplit(text, pos, [prefix[0]], prefix[1..]);
      if pos < |text| {
        assert text[pos..pos + 1] == [text[pos]];
        MatchIff(text, pos + 1, prefix[1..]);
      }
    }
  }

  /** A line that begins with T and goes on with anything but "ag=" is refused. */
  lemma BrokenTagRefused(text: string, pos: nat, e: Entry)
    requires pos < |text| && text[pos] == 'T' && !At(text, pos + 1, "ag=")
    ensures Scan(text, pos, Init, e).Failed? && Scan(text, pos, Init, e).rc == -EINVAL
  {
    hide StampAhead, MatchAhead, At;
    MatchIff(text, pos + 1, "ag=");
  }

  /** A tag that meets a line end, or the end of the stream, before a comma is refused. */
  lemma {:induction false} UnfinishedTagRefused(text: string, pos: nat, end: nat, e: Entry)
    requires pos <= end <= |text| && (end < |text| ==> EndsLine(text[end]))
    requires forall k :: pos <= k < end ==> text[k] != ',' && !EndsLine(text[k])
    ensures Scan(text, pos, Tag, e).Failed? && Scan(text, pos, Tag, e).rc == -EINVAL
    decreases end - pos
  {
    hide StampAhead, MatchAhead;
    if pos < end { UnfinishedTagRefused(text, pos + 1, end, StoreTag(e, text[pos])); }
  }

  /** Digits and points only, from one position up to another. */
  predicate OnlyNumber(text: string, pos: nat, end: nat) {
    pos <= end <= |text| && forall k :: pos <= k < end ==> IsDigit(text[k]) || text[k] == '.'
  }

  predicate NumberEndsAt(text: string, pos: nat, q: nat) {
    OnlyNumber(text, pos, q) && q < |text| && text[q] == ','
  }

  /** A number is read exactly when digits and points lead up to a comma, and then to
      behind that comma. */
  lemma {:induction false} StampOkIff(text: string, pos: nat, n: Number)
    requires pos <= |text|
    ensures var a := StampAhead(text, pos, ',', n);
            && (a.ok ==> NumberEndsAt(text, pos, a.next - 1))
            && (forall q: nat :: NumberEndsAt(text, pos, q) ==> a.ok && a.next == q + 1)
    decreases |text| - pos
  {
    if pos < |text| && text[pos] != ',' && (IsDigit(text[pos]) || text[pos] == '.') {
      var n' := if text[pos] == '.' then n.(isSeconds := false) else AddDigit(n, text[pos]);
      StampOkIff(text, pos + 1, n');
      forall q: nat | NumberEndsAt(text, pos, q) ensures NumberEndsAt(text, pos + 1, q) {
      }
    }
  }

  /** The text of a line goes up to the first line end, of either kind, or to the end
      of the stream. */
  lemma {:induction false} TextGoesToLineEnd(text: string, pos: nat, end: nat, e: Entry)
    requires pos <= end <= |text| && (end < |text| ==> text[end] == '\r' || text[end] == '\n')
    requires forall k :: pos <= k < end ==> text[k] != '\r' && text[k] != '\n'
    ensures Scan(text, pos, Histogram, e)
            == Done(e.(base64 := e.base64 + text[pos..end]), if end < |text| then end + 1 else end)
    decreases end - pos
  {
    hide StampAhead, MatchAhead;
    if pos < end {
      TextGoesToLineEnd(text, pos + 1, end, e.(base64 := e.base64 + [text[pos]]));
      assert text[pos..end] == [text[pos]] + text[pos + 1..end];
      assert e.base64 + [text[pos]] + text[pos + 1..end] == e.base64 + text[pos..end];
    } else {
      assert e.base64 + text[pos..end] == e.base64;
    }
  }

  /** Lines of a log, character by character. */
  lemma ExampleLine()
    ensures FormatLine(Line(Some("a"), 1500, 250, 42, "QQ==")) == "Tag=a,1.500,0.250,42.0,QQ==\n"
  {
    hide Decimal, TagPart, Millis;
    ExampleNumbers();
    ExampleTag();
    JoinParts("Tag=a,", "1.500", "0.250", "42", "QQ==");
    ExampleJoin();
  }

  /** No buffer or one of length 0 prints no tag; an empty string prints an empty one. */
  lemma ExampleTag()
    ensures TagPart(Some("a")) == "Tag=a," && TagPart(None) == "" && TagPart(Some("")) == ""
    ensures TagPart(Some(['\0'])) == "Tag=,"
  {
    assert "a"[1..] == "" && CString("a") == "a";
  }

  lemma ExampleJoin()
    ensures ("Tag=a," + ("1.500" + ("," + ("0.250" + ",")))) + ("42" + (".0," + ("QQ==" + "\n")))
            == "Tag=a,1.500,0.250,42.0,QQ==\n"
  {
  }

  lemma JoinParts(t: string, a: string, b: string, m: string, x: string)
    ensures t + a + "," + b + "," + m + ".0," + x + "\n"
            == (t + (a + ("," + (b + ",")))) + (m + (".0," + (x + "\n")))
  {
  }

  lemma ExampleLineWithoutTag()
    ensures FormatLine(Line(None, 12034, 7, 0, "")) == "12.034,0.007,0.0,\n"
  {
    ExampleNumbers();
    hide Decimal, Millis;
  }

  lemma ExampleNumbers()
    ensures Decimal(42) == "42" && Decimal(0) == "0"
    ensures Millis(1500) == "1.500" && Millis(250) == "0.250" && Millis(12034) == "12.034" && Millis(7) == "0.007"
  {
    assert Decimal(0) == "0" && Decimal(1) == "1" && Decimal(4) == "4";
    assert Decimal(42) == Decimal(4) + [Digit(2)] && Decimal(12) == Decimal(1) + [Digit(2)];
    hide Decimal;
    assert Millis(1500) == "1.500";
    assert Millis(250) == "0.250";
    assert Millis(12034) == "12.034";
    assert Millis(7) == "0.007";
  }

  // ----- a whole log -----

  function FormatLog(lines: seq<Line>): string {
    if lines == [] then "" else FormatLine(lines[0]) + FormatLog(lines[1..])
  }

  /** A client reading entries into fresh buffers until the reader fails: the
      entries, the last result code and where the stream stands. */
  function ReadLog(text: string, pos: nat, buffer: seq<char>): (seq<Entry>, int, nat)
    requires pos <= |text|
    decreases |text| - pos
  {
    var zero := Timespec(0, 0);
    match Scan(text, pos, Init, Entry(buffer, 0, zero, zero, zero, ""))
    case Failed(rc, _, next) => ([], rc, next)
    case Done(e, next) =>
      ScanProgress(text, pos, Entry(buffer, 0, zero, zero, zero, ""));
      var (es, rc, last) := ReadLog(text, next, buffer);
      ([e] + es, rc, last)
  }

  lemma ScanProgress(text: string, pos: nat, e: Entry)
    requires pos <= |text|
    ensures Scan(text, pos, Init, e).Done? ==> pos < Scan(text, pos, Init, e).next
    decreases |text| - pos
  {
    hide StampAhead, MatchAhead;
    if pos < |text| && EndsLine(text[pos]) { ScanProgress(text, pos + 1, e); }
  }

  function EntriesOf(lines: seq<Line>, buffer: seq<char>): seq<Entry> {
    if lines == [] then [] else [EntryOf(lines[0], buffer)] + EntriesOf(lines[1..], buffer)
  }

  /** Every log of printed lines reads back, entry by entry, and ends with EOF at
      the end of the stream. */
  lemma {:induction false} LogReadsBack(text: string, pos: nat, lines: seq<Line>, buffer: seq<char>)
    requires forall k :: 0 <= k < |lines| ==> CleanLine(lines[k])
    requires pos <= |text| && text[pos..] == FormatLog(lines)
    ensures ReadLog(text, pos, buffer) == (EntriesOf(lines, buffer), EOF, |text|)
    decreases |lines|
  {
    hide Scan, FormatLine, EntryOf, CleanLine, ReadLog, At;
    if lines == [] {
      EndOfLog(text, buffer);
    } else {
      SplitLog(text, pos, lines);
      ReadLogStep(text, pos, lines[0], buffer);
      LogReadsBack(text, pos + |FormatLine(lines[0])|, lines[1..], buffer);
    }
  }

  lemma EndOfLog(text: string, buffer: seq<char>)
    ensures ReadLog(text, |text|, buffer) == ([], EOF, |text|)
  {
  }

  lemma SplitLog(text: string, pos: nat, lines: seq<Line>)
    requires lines != [] && pos <= |text| && text[pos..] == FormatLog(lines)
    ensures var n := |FormatLine(lines[0])|;
            && At(text, pos, FormatLine(lines[0])) && text[pos + n..] == FormatLog(lines[1..])
  {
    hide FormatLine;
    var n := |FormatLine(lines[0])|;
    assert text[pos..pos + n] == text[pos..][..n] == FormatLine(lines[0]);
    assert text[pos + n..] == text[pos..][n..] == FormatLog(lines[1..]);
  }

  lemma ReadLogStep(text: string, pos: nat, line: Line, buffer: seq<char>)
    requires CleanLine(line) && At(text, pos, FormatLine(line))
    ensures pos + |FormatLine(line)| <= |text|
    ensures var (es, rc, last) := ReadLog(text, pos + |FormatLine(line)|, buffer);
            ReadLog(text, pos, buffer) == ([EntryOf(line, buffer)] + es, rc, last)
  {
    hide Scan, FormatLine, EntryOf, CleanLine;
    var zero := Timespec(0, 0);
    LineReadsBack(text, pos, line, Entry(buffer, 0, zero, zero, zero, ""));
  }

  /** The text of an encoded histogram never ends a line. */
  lemma {:induction false} Base64IsClean(s: seq<byte>)
    ensures CleanText(Base64.Encoded(s))
    decreases |s|
  {
    hide Base64.Symbol, Base64.Word;
    forall v: nat | v < 0x1000000 ensures CleanText(Base64.Symbols(v)) { SymbolsAreClean(v); }
    if |s| >= 3 { Base64IsClean(s[3..]); }
  }

  lemma SymbolsAreClean(v: nat)
    requires v < 0x1000000
    ensures CleanText(Base64.Symbols(v))
  {
    hide Base64.Symbol;
    Base64.SymbolReadsBack(v / 0x40000 % 64);
    Base64.SymbolReadsBack(v / 0x1000 % 64);
    Base64.SymbolReadsBack(v / 0x40 % 64);
    Base64.SymbolReadsBack(v % 64);
  }

  /** From bytes to a line of the log and back. */
  lemma BytesThroughLog(text: string, pos: nat, line: Line, bytes: seq<byte>, e: Entry)
    requires CleanLine(line.(base64 := "")) && line.base64 == Base64.Encoded(bytes)
    requires Fresh(e) && At(text, pos, FormatLine(line))
    ensures var o := Scan(text, pos, Init, e);
            && o == Done(EntryOf(line, e.tag), pos + |FormatLine(line)|)
            && |o.entry.base64| % 4 == 0
            && Base64.Decoded(o.entry.base64) == bytes + Base64.Padding(|bytes|)
  {
    hide Scan, FormatLine, CleanText, CleanTag, At;
    Base64IsClean(bytes);
    LineReadsBack(text, pos, line, e);
    Base64.DecodedEncoded(bytes);
  }
}
