/** hdr_log_read_entry as it runs: a stream with one character of push-back, the
    caller's entry, and a base64 buffer that doubles when full. */
module LogReader {
  import opened Basics
  import opened LogLines
  import Base64

  class Stream {
    const text: string
    var pos: nat

    ghost predicate Valid()
      reads this
    {
      pos <= |text|
    }

    constructor (text: string)
      ensures Valid() && this.text == text && pos == 0
    {
      this.text, pos := text, 0;
    }

    /** fgetc; None is EOF. */
    method Getc() returns (c: Option<char>)
      requires Valid()
      modifies this
      ensures Valid()
      ensures old(pos) == |text| ==> c == None && pos == old(pos)
      ensures old(pos) < |text| ==> c == Some(text[old(pos)]) && pos == old(pos) + 1
    {
      if pos == |text| {
        return None;
      }
      c := Some(text[pos]);
      pos := pos + 1;
    }

    /** ungetc of the character just read. */
    method Ungetc(c: char)
      requires Valid() && 0 < pos && text[pos - 1] == c
      modifies this
      ensures Valid() && pos == old(pos) - 1
    {
      pos := pos - 1;
    }
  }

  /** struct hdr_log_entry; without a tag buffer, tag is null. */
  class LogEntry {
    const tag: array?<char>
    var start: Timespec
    var interval: Timespec
    var max: Timespec

    constructor (tag: array?<char>)
      ensures this.tag == tag
    {
      this.tag := tag;
      start, interval, max := Timespec(0, 0), Timespec(0, 0), Timespec(0, 0);
    }

    ghost function Buffer(): (b: seq<char>)
      reads this, tag
    {
      if tag == null then [] else tag[..]
    }

    ghost function View(offset: nat, base64: string): Entry
      reads this, tag
    {
      Entry(Buffer(), offset, start, interval, max, base64)
    }
  }

  method ReadAhead(file: Stream, prefix: string) returns (ok: bool)
    requires file.Valid()
    modifies file
    ensures file.Valid() && Ahead(ok, (), file.pos) == MatchAhead(file.text, old(file.pos), prefix)
  {
    for i := 0 to |prefix|
      invariant file.Valid()
      invariant MatchAhead(file.text, file.pos, prefix[i..]) == MatchAhead(file.text, old(file.pos), prefix)
    {
      assert prefix[i..][1..] == prefix[i + 1..];
      var c := file.Getc();
      if c != Some(prefix[i]) {
        return false;
      }
    }
    return true;
  }

  method ReadAheadTimestamp(file: Stream, terminator: char) returns (ok: bool, t: Option<Timespec>)
    requires file.Valid()
    modifies file
    ensures file.Valid() && Ahead(ok, t, file.pos) == StampAhead(file.text, old(file.pos), terminator, ZERO_NUMBER)
  {
    var isSeconds, sec, nsec, multiplier := true, 0, 0, 1000000000;
    var c := file.Getc();
    while c.Some?
      invariant file.Valid() && old(file.pos) <= file.pos
      invariant c.Some? ==> 0 < file.pos && file.text[file.pos - 1] == c.value
      invariant c.None? ==> file.pos == |file.text|
      invariant StampAhead(file.text, if c.Some? then file.pos - 1 else file.pos, terminator,
                           Number(isSeconds, sec, nsec, multiplier))
             == StampAhead(file.text, old(file.pos), terminator, ZERO_NUMBER)
      decreases |file.text| - file.pos, c.Some?
    {
      if c.value == terminator {
        return true, Some(Timespec(sec, nsec * multiplier));
      } else if c.value == '.' {
        isSeconds := false;
      } else if IsDigit(c.value) {
        if isSeconds {
          sec := sec * 10 + DigitValue(c.value);
        } else {
          nsec := nsec * 10 + DigitValue(c.value);
          multiplier := multiplier / 10;
        }
      } else {
        return false, None;
      }
      c := file.Getc();
    }
    return false, None;
  }

  /** base64_histogram[base64_len++] = c, in a buffer doubled first if it is full. */
  method Append(buffer: array<char>, len: nat, c: char) returns (grown: array<char>)
    requires len <= buffer.Length && 0 < buffer.Length
    modifies buffer
    ensures len < grown.Length && (grown == buffer || fresh(grown))
    ensures grown[..len + 1] == old(buffer[..len]) + [c]
    ensures grown.Length == if len == buffer.Length then 2 * buffer.Length else buffer.Length
  {
    grown := buffer;
    if len == buffer.Length {
      grown := new char[2 * buffer.Length];
      forall i | 0 <= i < len { grown[i] := buffer[i]; }
    }
    grown[len] := c;
  }

  /** Outcome of one turn of the state machine. */
  datatype Turn = Continue(phase: Phase) | Stop(rc: int)

  /** The state INIT: skips line ends, recognises a tag or the first number. */
  method InitTurn(file: Stream, ghost e: Entry) returns (t: Turn)
    requires file.Valid()
    modifies file
    ensures file.Valid() && Follows(file.text, old(file.pos), Init, e, t, file.pos, e)
  {
    var c := file.Getc();
    if c == Some('T') {
      var ahead := ReadAhead(file, "ag=");
      return if ahead then Continue(Tag) else Stop(-EINVAL);
    } else if c.Some? && IsDigit(c.value) {
      file.Ungetc(c.value);
      return Continue(BeginTimestamp);
    } else if c.Some? && EndsLine(c.value) {
      return Continue(Init);
    } else if c == None {
      return Stop(EOF);
    }
    return Stop(-EINVAL);
  }

  /** The state TAG: one character of the tag, or its end. */
  method TagTurn(file: Stream, entry: LogEntry, offset: nat, ghost base64: string) returns (t: Turn, offset': nat)
    requires file.Valid()
    modifies file, entry.tag
    ensures file.Valid()
    ensures Follows(file.text, old(file.pos), Tag, old(entry.View(offset, base64)), t, file.pos,
                    entry.View(offset', base64))
  {
    hide MatchAhead, StampAhead;
    offset' := offset;
    var c := file.Getc();
    if c == Some(',') {
      if entry.tag != null && offset < entry.tag.Length {
        entry.tag[offset] := '\0';
      }
      return Continue(BeginTimestamp), offset';
    } else if c == None || EndsLine(c.value) {
      return Stop(-EINVAL), offset';
    }
    if entry.tag != null && offset < entry.tag.Length {
      entry.tag[offset] := c.value;
      offset' := offset + 1;
    }
    return Continue(Tag), offset';
  }

  /** The states BEGIN_TIMESTAMP, INTERVAL and MAX. */
  method NumberTurn(file: Stream, entry: LogEntry, phase: Phase, ghost offset: nat, ghost base64: string)
      returns (t: Turn)
    requires file.Valid() && (phase == BeginTimestamp || phase == Interval || phase == Max)
    modifies file, entry
    ensures file.Valid()
    ensures Follows(file.text, old(file.pos), phase, old(entry.View(offset, base64)), t, file.pos,
                    entry.View(offset, base64))
  {
    hide MatchAhead, StampAhead;
    var ok, time := ReadAheadTimestamp(file, ',');
    if !ok {
      return Stop(-EINVAL);
    }
    if phase == BeginTimestamp {
      entry.start := time.value;
      return Continue(Interval);
    } else if phase == Interval {
      entry.interval := time.value;
      return Continue(Max);
    }
    entry.max := time.value;
    return Continue(Histogram);
  }

  /** The state HISTOGRAM: one character of the text, or the end of the line. */
  method HistogramTurn(file: Stream, buffer: array<char>, len: nat, ghost e: Entry)
      returns (more: bool, buffer': array<char>, len': nat)
    requires file.Valid() && 0 < buffer.Length && len <= buffer.Length && e.base64 == buffer[..len]
    modifies file, buffer
    ensures file.Valid() && (buffer' == buffer || fresh(buffer')) && buffer.Length <= buffer'.Length
    ensures len' <= buffer'.Length
    ensures !more ==> buffer'[..len'] == e.base64
    ensures !more ==> Scan(file.text, old(file.pos), Histogram, e) == Done(e, file.pos)
    ensures more ==>
              Follows(file.text, old(file.pos), Histogram, e,
                      Continue(Histogram), file.pos, e.(base64 := buffer'[..len']))
  {
    hide MatchAhead, StampAhead;
    buffer', len' := buffer, len;
    var c := file.Getc();
    more := c.Some? && !EndsLine(c.value);
    if more {
      buffer' := Append(buffer, len, c.value);
      len' := len + 1;
    }
  }

  /** From one state of the scan, a turn reaches another from which the scan ends
      the same way, closer to its end, or it ends the scan. */
  ghost predicate Follows(text: string, pos: nat, phase: Phase, e: Entry, t: Turn, pos': nat, e': Entry) {
    && pos <= pos' <= |text|
    && match t
       case Stop(rc) => Scan(text, pos, phase, e) == Failed(rc, e', pos')
       case Continue(phase') =>
         && Scan(text, pos, phase, e) == Scan(text, pos', phase', e')
         && (pos < pos' || (phase.Init? && !phase'.Init?))
  }

  /** hdr_log_read_entry up to the end of its loop: 0 when the line was read. */
  method ReadLine(file: Stream, entry: LogEntry) returns (rc: int, tagOffset: nat, text: string)
    requires file.Valid()
    modifies file, entry, entry.tag
    ensures file.Valid()
    ensures var o := Scan(file.text, old(file.pos), Init, old(entry.View(0, "")));
            && file.pos == o.next && entry.View(tagOffset, text) == o.entry
            && rc == if o.Done? then 0 else o.rc
  {
    hide Scan;
    ghost var start, e0 := file.pos, entry.View(0, "");
    var phase, base64 := Init, new char[1024];
    var len: nat := 0;
    tagOffset := 0;
    assert base64[..0] == "";
    while true
      invariant file.Valid() && file.pos <= |file.text| && fresh(base64) && len <= base64.Length
      invariant 1024 <= base64.Length
      invariant Scan(file.text, file.pos, phase, entry.View(tagOffset, base64[..len]))
             == Scan(file.text, start, Init, e0)
      decreases |file.text| - file.pos, phase.Init?
    {
      if phase == Histogram {
        var more;
        more, base64, len := HistogramTurn(file, base64, len, entry.View(tagOffset, base64[..len]));
        if !more {
          return 0, tagOffset, base64[..len];
        }
      } else {
        var turn;
        turn, tagOffset := OtherTurn(file, entry, phase, tagOffset, base64[..len]);
        if turn.Stop? {
          return turn.rc, tagOffset, base64[..len];
        }
        phase := turn.phase;
      }
    }
  }

  /** Any state but HISTOGRAM. */
  method OtherTurn(file: Stream, entry: LogEntry, phase: Phase, offset: nat, ghost base64: string)
      returns (t: Turn, offset': nat)
    requires file.Valid() && phase != Histogram
    modifies file, entry, entry.tag
    ensures file.Valid()
    ensures Follows(file.text, old(file.pos), phase, old(entry.View(offset, base64)), t, file.pos,
                    entry.View(offset', base64))
  {
    hide Scan;
    offset' := offset;
    if phase == Init {
      t := InitTurn(file, entry.View(offset, base64));
    } else if phase == Tag {
      t, offset' := TagTurn(file, entry, offset, base64);
    } else {
      t := NumberTurn(file, entry, phase, offset, base64);
    }
  }

  /** hdr_log_read_entry up to the compressed bytes it hands to the decoder. */
  method ReadEntry(file: Stream, entry: LogEntry?) returns (result: int, tagOffset: nat, compressed: seq<byte>)
    requires file.Valid()
    modifies file, entry, if entry == null then null else entry.tag
    ensures file.Valid()
    ensures entry == null ==> result == -EINVAL && file.pos == old(file.pos)
    ensures entry != null ==>
              var o := Scan(file.text, old(file.pos), Init, old(entry.View(0, "")));
              && file.pos == o.next && entry.View(tagOffset, o.entry.base64) == o.entry
              && (o.Failed? ==> result == o.rc)
              && (o.Done? ==> (result == 0 <==> o.entry.base64 != "" && |o.entry.base64| % 4 == 0))
              && (o.Done? && result == 0 ==> compressed == Base64.Decoded(o.entry.base64))
              && (o.Done? && result != 0 ==> result == -EINVAL)
  {
    hide Scan;
    compressed := [];
    if entry == null {
      return -EINVAL, 0, [];
    }
    var text;
    result, tagOffset, text := ReadLine(file, entry);
    if result == 0 {
      var output := new byte[Base64.DecodedLen(|text|)](_ => 0);
      result := Base64.Decode(text, output);
      compressed := output[..];
    }
  }
}
