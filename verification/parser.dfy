/**
 * `PayrollServiceImpl.parseLineToEvent` and `cleanNotes`: one comma-separated
 * line becomes an event, is skipped, or raises an exception that ends the
 * whole file.
 */
module LineParser {
  import opened Wrappers
  import opened Text
  import opened Numbers
  import opened Dates
  import opened Events
  import opened Seqs

  /** A line starting with this literal is a header and is skipped. */
  const HeaderPrefix: string := "SequenceNo"

  /** Lines with fewer fields than this are skipped as incomplete. */
  const FieldCount: nat := 9

  /**
   * Exceptions that `parseLineToEvent` does not catch: a date that
   * `LocalDate.parse` refuses, and the `StringIndexOutOfBoundsException` that
   * `cleanNotes` raises on a notes field that is a lone double quote.
   */
  datatype Fault = BadDate | BadNotes

  /** What one line turns into. Only `Aborted` stops the file. */
  datatype LineOutcome =
    | Header
    | Incomplete
    | BadNumber
    | Parsed(event: Event)
    | Aborted(fault: Fault)
  {
    /** The events the line contributes to the file's records. */
    function Emitted(): seq<Event> {
      if Parsed? then [event] else []
    }
  }

  /** The one-character string `"`. */
  const Quote: string := "\""

  lemma QuoteEnds(s: string)
    ensures StartsWith(s, Quote) <==> |s| > 0 && s[0] == '"'
    ensures EndsWith(s, Quote) <==> |s| > 0 && s[|s| - 1] == '"'
  {
    if |s| > 0 {
      assert s[..1] == [s[0]];
      assert s[|s| - 1..] == [s[|s| - 1]];
    }
  }

  /**
   * `cleanNotes`: a string that both starts and ends with `"` loses its
   * first and last character; a lone `"` starts and ends with `"` too, and
   * `substring(1, 0)` throws.
   */
  function CleanNotes(notes: string): (r: Option<string>)
    ensures r.None? <==> notes == Quote
    ensures !(|notes| > 0 && notes[0] == '"' && notes[|notes| - 1] == '"') ==> r == Some(notes)
  {
    QuoteEnds(notes);
    if StartsWith(notes, Quote) && EndsWith(notes, Quote) then
      if |notes| >= 2 then Some(notes[1..|notes| - 1])
      else
        assert notes == [notes[0]];
        None
    else Some(notes)
  }

  /** Exactly one surrounding pair of quotes comes off, whatever quotes lie inside. */
  lemma CleanQuoted(inner: string)
    ensures CleanNotes("\"" + inner + "\"") == Some(inner)
  {
    var q := "\"" + inner + "\"";
    QuoteEnds(q);
    assert q[1..|q| - 1] == inner;
  }

  /** The comma-separated fields of a line, untrimmed, as `split(",", -1)` gives them. */
  function Fields(line: string): (f: seq<string>)
    ensures |f| == Occurrences(line, ',') + 1
  {
    Split(line, ',')
  }

  /**
   * `parseLineToEvent`. The constructor's arguments are evaluated left to
   * right, so the value (field 7) is parsed before the date (field 8) and the
   * notes (field 9); only the value's `NumberFormatException` is caught.
   */
  function ParseLine(line: string): (r: LineOutcome)
    ensures r.Header? <==> StartsWith(line, HeaderPrefix)
    ensures r.Incomplete? <==> !StartsWith(line, HeaderPrefix) && Occurrences(line, ',') < FieldCount - 1
    ensures !StartsWith(line, HeaderPrefix) ==> r == ParseFields(Fields(line))
  {
    if StartsWith(line, HeaderPrefix) then Header else ParseFields(Fields(line))
  }

  /** The part of `parseLineToEvent` after the header test, on the split fields. */
  function ParseFields(f: seq<string>): (r: LineOutcome)
    ensures !r.Header?
    ensures r.Incomplete? <==> |f| < FieldCount
    ensures r.BadNumber? <==> |f| >= FieldCount && ParseDecimal(Trim(f[6])).None?
    ensures r.Aborted? ==> |f| >= FieldCount && ParseDecimal(Trim(f[6])).Some?
    ensures r == Aborted(BadDate) <==>
      |f| >= FieldCount && ParseDecimal(Trim(f[6])).Some? && ParseDate(Trim(f[7])).None?
    ensures r == Aborted(BadNotes) ==> Trim(f[8]) == "\""
    ensures r.Parsed? ==> ValidDate(r.event.eventDate)
    ensures r.Parsed? && (forall k | 0 <= k < |f| :: ',' !in f[k]) ==>
      && PlainField(r.event.sequenceNo) && PlainField(r.event.empId) && PlainField(r.event.firstName)
      && PlainField(r.event.lastName) && PlainField(r.event.designation) && PlainField(r.event.event)
      && ',' !in r.event.notes
  {
    if |f| < FieldCount then Incomplete
    else
      var value := ParseDecimal(Trim(f[6]));
      if value.None? then BadNumber
      else
        var date := ParseDate(Trim(f[7]));
        if date.None? then Aborted(BadDate)
        else
          var notes := CleanNotes(Trim(f[8]));
          if notes.None? then Aborted(BadNotes)
          else
            var e := Event(Trim(f[0]), Trim(f[1]), Trim(f[2]), Trim(f[3]), Trim(f[4]), Trim(f[5]),
                           value.value, date.value, notes.value);
            assert (forall k | 0 <= k < |f| :: ',' !in f[k]) ==>
              && PlainField(e.sequenceNo) && PlainField(e.empId) && PlainField(e.firstName)
              && PlainField(e.lastName) && PlainField(e.designation) && PlainField(e.event)
              && ',' !in e.notes
            by {
              if forall k | 0 <= k < |f| :: ',' !in f[k] {
                forall k | 0 <= k < FieldCount ensures ',' !in Trim(f[k]) {
                  TrimNoComma(f[k]);
                }
                CleanNoComma(Trim(f[8]));
              }
            }
            Parsed(e)
  }

  /**
   * A complete line is accepted exactly when its value, date and notes all
   * parse, and the event it yields carries the trimmed fields 1-6 in order,
   * the parsed value and date, and the cleaned notes; fields past the ninth
   * play no part.
   */
  lemma AcceptedFields(f: seq<string>)
    requires |f| >= FieldCount
    ensures ParseFields(f).Parsed? <==>
      ParseDecimal(Trim(f[6])).Some? && ParseDate(Trim(f[7])).Some? && CleanNotes(Trim(f[8])).Some?
    ensures ParseFields(f).Parsed? ==>
      ParseFields(f).event == Event(Trim(f[0]), Trim(f[1]), Trim(f[2]), Trim(f[3]), Trim(f[4]), Trim(f[5]),
                                    ParseDecimal(Trim(f[6])).value, ParseDate(Trim(f[7])).value,
                                    CleanNotes(Trim(f[8])).value)
  {
  }

  lemma CleanNoComma(s: string)
    requires ',' !in s && CleanNotes(s).Some?
    ensures ',' !in CleanNotes(s).value
  {
    var r := CleanNotes(s).value;
    forall i | 0 <= i < |r| ensures r[i] != ',' {
      if r != s {
        assert r[i] == s[i + 1];
      }
    }
  }

  lemma TrimNoComma(s: string)
    requires ',' !in s
    ensures ',' !in Trim(s)
  {
    var t := Trim(s);
    forall i | 0 <= i < |t| ensures t[i] != ',' {
      assert t[i] == s[LeadingBlanks(s) + i];
    }
  }

  /**
   * Fields after the ninth are ignored: appending one more field to a line
   * that already has nine or more leaves its outcome unchanged.
   */
  lemma {:induction false} ExtraFieldIgnored(line: string, extra: string)
    requires Occurrences(line, ',') >= FieldCount - 1
    requires ',' !in extra
    ensures ParseLine(line + "," + extra) == ParseLine(line)
  {
    FieldsSnoc(line, extra);
    PrefixOfLonger(line, "," + extra);
    assert line + "," + extra == line + ("," + extra);
    ExtraFieldsIgnored(Fields(line), extra);
  }

  lemma FieldsSnoc(line: string, extra: string)
    requires ',' !in extra
    ensures Fields(line + "," + extra) == Fields(line) + [extra]
  {
    var f := Fields(line);
    var g := f + [extra];
    JoinSnoc(f, extra, ',');
    assert Join(g, ',') == line + "," + extra;
    assert forall k | 0 <= k < |g| :: ',' !in g[k] by {
      assert forall k | 0 <= k < |f| :: g[k] == f[k];
    }
    SplitJoin(g, ',');
  }

  lemma ExtraFieldsIgnored(f: seq<string>, extra: string)
    requires |f| >= FieldCount
    ensures ParseFields(f + [extra]) == ParseFields(f)
  {
    var g := f + [extra];
    assert g[0] == f[0] && g[1] == f[1] && g[2] == f[2] && g[3] == f[3] && g[4] == f[4];
    assert g[5] == f[5] && g[6] == f[6] && g[7] == f[7] && g[8] == f[8];
  }

  lemma {:induction false} JoinSnoc(fields: seq<string>, last: string, sep: char)
    requires |fields| >= 1
    ensures Join(fields + [last], sep) == Join(fields, sep) + [sep] + last
  {
    if |fields| == 1 {
      assert (fields + [last])[1..] == [last];
    } else {
      assert (fields + [last])[1..] == fields[1..] + [last];
      JoinSnoc(fields[1..], last, sep);
    }
  }

  /** The header test cannot change by appending text that starts with a comma, since the prefix has none. */
  lemma PrefixOfLonger(line: string, more: string)
    requires |more| > 0 && more[0] == ','
    ensures StartsWith(line + more, HeaderPrefix) <==> StartsWith(line, HeaderPrefix)
  {
    if |line| >= |HeaderPrefix| {
      assert (line + more)[..|HeaderPrefix|] == line[..|HeaderPrefix|];
    } else {
      assert (line + more)[|line|] == ',';
      assert HeaderPrefix[|line|] != ',';
    }
  }

  // ---------------------------------------------------------------------------
  // The other direction: writing an event as a line and reading it back.

  /** Text that survives a comma split and a trim unchanged. */
  predicate PlainField(s: string) {
    ',' !in s && IsTrimmed(s)
  }

  /**
   * An event the upload format can express with its value written as the
   * fixed-point decimal `amount`: its text fields are plain, its notes hold
   * no comma, its date has a four-digit year, and its sequence number does
   * not make the line look like a header.
   */
  predicate Writable(e: Event, amount: Fixed) {
    && PlainField(e.sequenceNo) && PlainField(e.empId) && PlainField(e.firstName)
    && PlainField(e.lastName) && PlainField(e.designation) && PlainField(e.event)
    && ',' !in e.notes
    && !StartsWith(e.sequenceNo, HeaderPrefix)
    && ValidFixed(amount) && e.value == FixedValue(amount)
    && ValidDate(e.eventDate) && e.eventDate.year <= 9999
  }

  /** The nine fields of an upload line for `e`, the notes quoted. */
  function LineFields(e: Event, amount: Fixed): (f: seq<string>)
    requires Writable(e, amount)
    ensures |f| == FieldCount
  {
    [e.sequenceNo, e.empId, e.firstName, e.lastName, e.designation, e.event,
     FormatFixed(amount), FormatDate(e.eventDate), "\"" + e.notes + "\""]
  }

  function FormatLine(e: Event, amount: Fixed): string
    requires Writable(e, amount)
  {
    Join(LineFields(e, amount), ',')
  }

  /** Every writable event is read back exactly from the line written for it. */
  lemma ParseFormatLine(e: Event, amount: Fixed)
    requires Writable(e, amount)
    ensures ParseLine(FormatLine(e, amount)) == Parsed(e)
  {
    NotHeader(e, amount);
    FormatLineFields(e, amount);
    ParseLineFields(e, amount);
  }

  /** Splitting the written line gives back its nine fields. */
  lemma FormatLineFields(e: Event, amount: Fixed)
    requires Writable(e, amount)
    ensures Fields(FormatLine(e, amount)) == LineFields(e, amount)
  {
    FormattedFieldsPlain(e, amount);
    SplitJoin(LineFields(e, amount), ',');
  }

  /** The nine written fields parse to the event. */
  lemma ParseLineFields(e: Event, amount: Fixed)
    requires Writable(e, amount)
    ensures ParseFields(LineFields(e, amount)) == Parsed(e)
  {
    var f := LineFields(e, amount);
    forall k | 0 <= k < 6 ensures Trim(f[k]) == f[k] {
      TrimmedIsFixed(f[k]);
    }
    assert ParseDecimal(Trim(f[6])) == Some(e.value) by {
      FixedFieldPlain(amount);
      TrimmedIsFixed(f[6]);
      ParseFormatFixed(amount);
    }
    assert ParseDate(Trim(f[7])) == Some(e.eventDate) by {
      DateFieldPlain(e.eventDate);
      TrimmedIsFixed(f[7]);
      ParseFormatDate(e.eventDate);
    }
    assert CleanNotes(Trim(f[8])) == Some(e.notes) by {
      NotesFieldPlain(e.notes);
      TrimmedIsFixed(f[8]);
      CleanQuoted(e.notes);
    }
  }

  lemma FormattedFieldsPlain(e: Event, amount: Fixed)
    requires Writable(e, amount)
    ensures forall k | 0 <= k < |LineFields(e, amount)| :: ',' !in LineFields(e, amount)[k]
  {
    FixedFieldPlain(amount);
    DateFieldPlain(e.eventDate);
    NotesFieldPlain(e.notes);
  }

  /** A formatted fixed-point amount is plain text. */
  lemma FixedFieldPlain(x: Fixed)
    requires ValidFixed(x)
    ensures PlainField(FormatFixed(x))
  {
    var n := FormatFixed(x);
    var u := FixedBody(x);
    assert n == u || n == "-" + u;
    assert ',' !in n by {
      assert forall i | 0 <= i < |u| :: u[i] != ',';
    }
    assert !IsBlank(n[|n| - 1]) by {
      assert n[|n| - 1] == u[|u| - 1];
    }
  }

  /** A formatted date is plain text. */
  lemma DateFieldPlain(d: Date)
    requires ValidDate(d) && d.year <= 9999
    ensures PlainField(FormatDate(d))
  {
    var s := FormatDate(d);
    var day := PadNat(d.day, 2);
    var month := MonthKey(d.month);
    var year := PadNat(d.year, 4);
    assert s == day + "-" + month + "-" + year;
    forall i | 0 <= i < |s| ensures s[i] != ',' && !IsBlank(s[i]) {
      if i < 2 {
        assert s[i] == day[i];
      } else if 2 < i < 5 {
        assert s[i] == month[i - 3];
      } else if 5 < i {
        assert s[i] == year[i - 6];
      }
    }
  }

  /** Quoted notes without a comma are trimmed text without a comma. */
  lemma NotesFieldPlain(notes: string)
    requires ',' !in notes
    ensures PlainField("\"" + notes + "\"")
  {
    var q := "\"" + notes + "\"";
    forall i | 0 <= i < |q| ensures q[i] != ',' {
      if 0 < i < |q| - 1 {
        assert q[i] == notes[i - 1];
      }
    }
  }

  lemma NotHeader(e: Event, amount: Fixed)
    requires Writable(e, amount)
    ensures !StartsWith(FormatLine(e, amount), HeaderPrefix)
  {
    var f := LineFields(e, amount);
    var rest := Join(f[1..], ',');
    assert FormatLine(e, amount) == e.sequenceNo + ("," + rest);
    PrefixOfLonger(e.sequenceNo, "," + rest);
  }

  // ---------------------------------------------------------------------------
  // A whole file.

  /**
   * The `processFile` loop over the lines' outcomes, in order: parsed events
   * are collected, and the first uncaught exception ends the file.
   */
  function Collect(outcomes: seq<LineOutcome>): (r: Result<seq<Event>, Fault>)
    ensures r.Success? <==> forall i | 0 <= i < |outcomes| :: !outcomes[i].Aborted?
    ensures r.Success? ==> |r.value| <= |outcomes|
    ensures r.Success? ==> r.value == Flatten(Map(EmittedOf, outcomes))
    ensures r.Failure? ==> exists i | 0 <= i < |outcomes| :: outcomes[i] == Aborted(r.error)
  {
    if |outcomes| == 0 then Success([])
    else
      var rest := Collect(outcomes[1..]);
      if outcomes[0].Aborted? then Failure(outcomes[0].fault)
      else if rest.Failure? then Failure(rest.error)
      else
        MapCons(EmittedOf, outcomes);
        FlattenCons(outcomes[0].Emitted(), Map(EmittedOf, outcomes[1..]));
        Success(outcomes[0].Emitted() + rest.value)
  }

  /** The events one line outcome adds to the file's records. */
  function EmittedOf(o: LineOutcome): seq<Event> {
    o.Emitted()
  }

  /** The lists one after the other, in order. */
  function Flatten(parts: seq<seq<Event>>): seq<Event> {
    if |parts| == 0 then [] else Flatten(parts[..|parts| - 1]) + parts[|parts| - 1]
  }

  lemma {:induction false} FlattenCons(first: seq<Event>, parts: seq<seq<Event>>)
    ensures Flatten([first] + parts) == first + Flatten(parts)
  {
    if |parts| == 0 {
      assert [first] + parts == [first];
      assert [first][..0] == [];
    } else {
      var init := parts[..|parts| - 1];
      var last := parts[|parts| - 1];
      assert ([first] + parts)[..|parts|] == [first] + init;
      assert ([first] + parts)[|parts|] == last;
      FlattenCons(first, init);
      assert Flatten([first] + parts) == (first + Flatten(init)) + last;
      assert (first + Flatten(init)) + last == first + (Flatten(init) + last);
    }
  }

  /** Each line's outcome, in line order. */
  function Outcomes(lines: seq<string>): (r: seq<LineOutcome>)
    ensures |r| == |lines|
    ensures forall i | 0 <= i < |lines| :: r[i] == ParseLine(lines[i])
  {
    Map(ParseLine, lines)
  }

  /** All the lines of one file: its events, or the exception that ended it. */
  function ParseLines(lines: seq<string>): (r: Result<seq<Event>, Fault>)
    ensures r.Success? <==> forall i | 0 <= i < |lines| :: !ParseLine(lines[i]).Aborted?
    ensures r.Success? ==> |r.value| <= |lines|
    ensures r.Success? ==> r.value == Flatten(Map(EmittedOf, Outcomes(lines)))
    ensures r.Failure? ==> exists i | 0 <= i < |lines| :: ParseLine(lines[i]) == Aborted(r.error)
  {
    Collect(Outcomes(lines))
  }

  /** An empty file has no records. */
  lemma ParseNoLines()
    ensures ParseLines([]) == Success([])
  {
  }

  /** A file of one line that does not abort holds exactly what that line yields. */
  lemma ParseOneLine(line: string)
    requires !ParseLine(line).Aborted?
    ensures ParseLines([line]) == Success(ParseLine(line).Emitted())
  {
    assert Outcomes([line]) == [ParseLine(line)];
    CollectOne(ParseLine(line));
  }

  lemma CollectOne(o: LineOutcome)
    requires !o.Aborted?
    ensures Collect([o]) == Success(o.Emitted())
  {
    assert [o][1..] == [];
    assert o.Emitted() + [] == o.Emitted();
  }

  lemma CollectAppend(a: seq<LineOutcome>, b: seq<LineOutcome>)
    requires Collect(a).Success? && Collect(b).Success?
    ensures Collect(a + b) == Success(Collect(a).value + Collect(b).value)
  {
    forall i | 0 <= i < |a + b| ensures !(a + b)[i].Aborted? {
      if i < |a| {
        assert (a + b)[i] == a[i];
      } else {
        assert (a + b)[i] == b[i - |a|];
      }
    }
    MapAppend(EmittedOf, a, b);
    FlattenAppend(Map(EmittedOf, a), Map(EmittedOf, b));
  }

  lemma {:induction false} FlattenAppend(x: seq<seq<Event>>, y: seq<seq<Event>>)
    ensures Flatten(x + y) == Flatten(x) + Flatten(y)
  {
    if |y| == 0 {
      assert x + y == x;
      assert Flatten(x) + [] == Flatten(x);
    } else {
      var init := y[..|y| - 1];
      var last := y[|y| - 1];
      assert (x + y)[..|x + y| - 1] == x + init;
      assert (x + y)[|x + y| - 1] == last;
      FlattenAppend(x, init);
      assert Flatten(x + y) == (Flatten(x) + Flatten(init)) + last;
      assert (Flatten(x) + Flatten(init)) + last == Flatten(x) + (Flatten(init) + last);
    }
  }

  /** A file read in two parts: the events are those of the first part followed by those of the second. */
  lemma ParseLinesAppend(a: seq<string>, b: seq<string>)
    requires ParseLines(a).Success? && ParseLines(b).Success?
    ensures ParseLines(a + b) == Success(ParseLines(a).value + ParseLines(b).value)
  {
    OutcomesAppend(a, b);
    CollectAppend(Outcomes(a), Outcomes(b));
  }

  lemma OutcomesAppend(a: seq<string>, b: seq<string>)
    ensures Outcomes(a + b) == Outcomes(a) + Outcomes(b)
  {
    MapAppend(ParseLine, a, b);
  }

  lemma {:induction false} CollectSkip(a: seq<LineOutcome>, skipped: LineOutcome, b: seq<LineOutcome>)
    requires skipped.Header? || skipped.Incomplete? || skipped.BadNumber?
    ensures Collect(a + [skipped] + b) == Collect(a + b)
  {
    if |a| > 0 {
      assert (a + [skipped] + b)[0] == (a + b)[0] == a[0];
      assert (a + [skipped] + b)[1..] == a[1..] + [skipped] + b;
      assert (a + b)[1..] == a[1..] + b;
      CollectSkip(a[1..], skipped, b);
    } else {
      assert a + [skipped] + b == [skipped] + b;
      assert ([skipped] + b)[1..] == b;
      assert a + b == b;
      assert Collect(b).Success? ==> [] + Collect(b).value == Collect(b).value;
    }
  }

  /**
   * A header, an incomplete line or a line with an unreadable value is
   * dropped alone: the lines around it are parsed as if it were absent.
   */
  lemma SkippedLineDropped(a: seq<string>, skipped: string, b: seq<string>)
    requires ParseLine(skipped).Header? || ParseLine(skipped).Incomplete? || ParseLine(skipped).BadNumber?
    ensures ParseLines(a + [skipped] + b) == ParseLines(a + b)
  {
    OutcomesAppend(a + [skipped], b);
    OutcomesAppend(a, [skipped]);
    OutcomesAppend(a, b);
    assert Outcomes([skipped]) == [ParseLine(skipped)];
    CollectSkip(Outcomes(a), ParseLine(skipped), Outcomes(b));
  }
}
