/** The CSV field encoder of m/js/list.js and a reader for the format it
    writes: fields separated by `,`, records by LF, a field quoted when it
    holds `"`, `,` or LF, with inner quotes doubled (RFC 4180 section 2,
    except that records end in LF and CR alone does not force quoting). */
module Csv {
  import opened Text

  predicate Special(c: char)
  {
    c == '"' || c == ',' || c == '\n'
  }

  /** The test `/[",\n]/`: some character of `s` is special. */
  predicate NeedsQuote(s: string)
    decreases |s|
  {
    s != [] && (Special(s[0]) || NeedsQuote(s[1..]))
  }

  /** A text of ASCII letters is written as it is. */
  lemma {:induction false} LettersNeedNoQuotes(s: string)
    requires forall i :: 0 <= i < |s| ==> 'a' <= s[i] <= 'z' || 'A' <= s[i] <= 'Z'
    ensures !NeedsQuote(s)
    decreases |s|
  {
    if s != [] {
      LettersNeedNoQuotes(s[1..]);
    }
  }

  /** `s.replace(/"/g, '""')`. */
  function DoubleQuotes(s: string): (r: string)
    ensures |r| >= |s|
  {
    if s == [] then []
    else (if s[0] == '"' then "\"\"" else [s[0]]) + DoubleQuotes(s[1..])
  }

  /** `csv(v)` for a value already converted with `String(v ?? "")`. */
  function Field(s: string): (r: string)
    ensures !NeedsQuote(s) ==> r == s
    ensures NeedsQuote(s) ==> |r| >= |s| + 2 && r[0] == '"' && r[|r| - 1] == '"'
  {
    if NeedsQuote(s) then "\"" + DoubleQuotes(s) + "\"" else s
  }

  /** The fields of a record, encoded and joined with commas. */
  function Fields(fs: seq<string>): (r: seq<string>)
    ensures |r| == |fs|
  {
    if fs == [] then [] else [Field(fs[0])] + Fields(fs[1..])
  }

  lemma {:induction false} FieldsAt(fs: seq<string>, i: nat)
    requires i < |fs|
    ensures Fields(fs)[i] == Field(fs[i])
    decreases i
  {
    if i > 0 {
      FieldsAt(fs[1..], i - 1);
    }
  }

  /** A seven-field record encodes field by field. */
  lemma FieldsOfRow(fs: seq<string>)
    requires |fs| == 7
    ensures Fields(fs) == [Field(fs[0]), Field(fs[1]), Field(fs[2]), Field(fs[3]),
                           Field(fs[4]), Field(fs[5]), Field(fs[6])]
  {
    forall i | 0 <= i < 7 ensures Fields(fs)[i] == Field(fs[i]) {
      FieldsAt(fs, i);
    }
  }

  function Record(fs: seq<string>): string
  {
    JoinWith(Fields(fs), ",")
  }

  /** One field read off the front of a text, and what follows it. */
  datatype Split = Split(field: string, rest: string)

  /** Reads the inside of a quoted field (after its opening quote), turning
      `""` into `"`, up to and past the closing quote. */
  function ReadQuoted(t: string): (r: Split)
    ensures |r.rest| <= |t|
    decreases |t|
  {
    if t == [] then Split("", "")
    else if t[0] == '"' then
      if |t| > 1 && t[1] == '"' then
        var r := ReadQuoted(t[2..]);
        Split("\"" + r.field, r.rest)
      else Split("", t[1..])
    else
      var r := ReadQuoted(t[1..]);
      Split([t[0]] + r.field, r.rest)
  }

  /** Reads an unquoted field, up to the next `,` or LF. */
  function ReadPlain(t: string): (r: Split)
    ensures |r.rest| <= |t|
    ensures r.rest == [] || r.rest[0] == ',' || r.rest[0] == '\n'
  {
    if t == [] || t[0] == ',' || t[0] == '\n' then Split("", t)
    else
      var r := ReadPlain(t[1..]);
      Split([t[0]] + r.field, r.rest)
  }

  function ReadField(t: string): (r: Split)
    ensures |r.rest| <= |t|
  {
    if t != [] && t[0] == '"' then ReadQuoted(t[1..]) else ReadPlain(t)
  }

  /** The fields of one record, and the text after it (empty or starting with LF). */
  datatype Line = Line(fields: seq<string>, rest: string)

  function ReadRecord(t: string): (r: Line)
    ensures |r.rest| <= |t| && |r.fields| >= 1
    decreases |t|
  {
    var f := ReadField(t);
    if f.rest != [] && f.rest[0] == ',' then
      var r := ReadRecord(f.rest[1..]);
      Line([f.field] + r.fields, r.rest)
    else Line([f.field], f.rest)
  }

  /** All records of a text; a text always holds at least one. */
  function ReadFile(t: string): (r: seq<seq<string>>)
    ensures |r| >= 1
    decreases |t|
  {
    var l := ReadRecord(t);
    if l.rest == [] then [l.fields] else [l.fields] + ReadFile(l.rest[1..])
  }

  /** One step of `ReadQuoted` over a text that starts with `""`. */
  lemma ReadQuotedPair(t: string, inner: string)
    requires t == ['"', '"'] + inner
    ensures ReadQuoted(t) == Split(['"'] + ReadQuoted(inner).field, ReadQuoted(inner).rest)
  {
    assert t[2..] == inner;
  }

  /** One step of `ReadQuoted` over a text that starts with another character. */
  lemma ReadQuotedChar(t: string, c: char, inner: string)
    requires c != '"' && t == [c] + inner
    ensures ReadQuoted(t) == Split([c] + ReadQuoted(inner).field, ReadQuoted(inner).rest)
  {
    assert t[1..] == inner;
  }

  lemma {:induction false} ReadQuotedDoubled(s: string, tail: string)
    requires tail == [] || tail[0] != '"'
    ensures ReadQuoted(DoubleQuotes(s) + "\"" + tail) == Split(s, tail)
    decreases |s|
  {
    var t := DoubleQuotes(s) + "\"" + tail;
    if s == [] {
      assert t[1..] == tail && (|t| > 1 ==> t[1] == tail[0]) by {
        assert t == ['"'] + tail;
      }
    } else {
      var inner := DoubleQuotes(s[1..]) + "\"" + tail;
      ReadQuotedDoubled(s[1..], tail);
      assert s == [s[0]] + s[1..];
      if s[0] == '"' {
        assert DoubleQuotes(s) == ['"', '"'] + DoubleQuotes(s[1..]);
        ReadQuotedPair(t, inner);
      } else {
        assert DoubleQuotes(s) == [s[0]] + DoubleQuotes(s[1..]);
        ReadQuotedChar(t, s[0], inner);
      }
    }
  }

  lemma {:induction false} ReadPlainExact(s: string, tail: string)
    requires !NeedsQuote(s)
    requires tail == [] || tail[0] == ',' || tail[0] == '\n'
    ensures ReadPlain(s + tail) == Split(s, tail)
    decreases |s|
  {
    if s != [] {
      ReadPlainExact(s[1..], tail);
      assert (s + tail)[1..] == s[1..] + tail;
      assert s == [s[0]] + s[1..];
    } else {
      assert s + tail == tail;
    }
  }

  /** Reading an encoded field gives back the value and stops where the next
      separator starts: removing the quotes and un-doubling recovers the input. */
  lemma FieldRoundTrip(s: string, tail: string)
    requires tail == [] || tail[0] == ',' || tail[0] == '\n'
    ensures ReadField(Field(s) + tail) == Split(s, tail)
  {
    if NeedsQuote(s) {
      var inner := DoubleQuotes(s) + "\"" + tail;
      assert Field(s) + tail == ['"'] + inner;
      assert (['"'] + inner)[1..] == inner;
      ReadQuotedDoubled(s, tail);
    } else {
      ReadPlainExact(s, tail);
    }
  }

  /** A record of two or more fields is its first field, a comma, and the rest. */
  lemma RecordCons(fs: seq<string>)
    requires |fs| >= 2
    ensures Record(fs) == Field(fs[0]) + "," + Record(fs[1..])
  {
    assert Fields(fs) == [Field(fs[0])] + Fields(fs[1..]);
  }

  /** `ReadRecord` after a field that ends at a comma reads the rest as more fields. */
  lemma ReadRecordComma(t: string, f: string, more: string)
    requires ReadField(t) == Split(f, "," + more)
    ensures ReadRecord(t) == Line([f] + ReadRecord(more).fields, ReadRecord(more).rest)
  {
    assert ("," + more)[1..] == more;
  }

  lemma {:induction false} RecordRoundTrip(fs: seq<string>, tail: string)
    requires |fs| >= 1
    requires tail == [] || tail[0] == '\n'
    ensures ReadRecord(Record(fs) + tail) == Line(fs, tail)
    decreases |fs|
  {
    if |fs| == 1 {
      assert Record(fs) == Field(fs[0]) by {
        assert Fields(fs) == [Field(fs[0])];
      }
      FieldRoundTrip(fs[0], tail);
    } else {
      var more := Record(fs[1..]) + tail;
      var t := Record(fs) + tail;
      assert t == Field(fs[0]) + ("," + more) by {
        RecordCons(fs);
      }
      FieldRoundTrip(fs[0], "," + more);
      ReadRecordComma(t, fs[0], more);
      RecordRoundTrip(fs[1..], tail);
      assert fs == [fs[0]] + fs[1..];
    }
  }

  /** The records, each encoded, joined with LF. */
  function Records(rows: seq<seq<string>>): (r: seq<string>)
    ensures |r| == |rows|
  {
    if rows == [] then [] else [Record(rows[0])] + Records(rows[1..])
  }

  /** Reading back an encoded file gives the records that were written. */
  lemma {:induction false} FileRoundTrip(rows: seq<seq<string>>)
    requires |rows| >= 1
    requires forall i :: 0 <= i < |rows| ==> |rows[i]| >= 1
    ensures ReadFile(JoinWith(Records(rows), "\n")) == rows
    decreases |rows|
  {
    var enc := Records(rows);
    if |rows| == 1 {
      assert JoinWith(enc, "\n") == Record(rows[0]) + "";
      RecordRoundTrip(rows[0], "");
    } else {
      assert Records(rows[1..]) == enc[1..];
      var more := JoinWith(Records(rows[1..]), "\n");
      assert JoinWith(enc, "\n") == Record(rows[0]) + ("\n" + more);
      RecordRoundTrip(rows[0], "\n" + more);
      assert ("\n" + more)[1..] == more;
      FileRoundTrip(rows[1..]);
      assert rows == [rows[0]] + rows[1..];
    }
  }

  lemma {:induction false} RecordsAppend(rows: seq<seq<string>>, r: seq<string>)
    ensures Records(rows + [r]) == Records(rows) + [Record(r)]
    decreases |rows|
  {
    if rows == [] {
      assert [] + [r] == [r];
    } else {
      RecordsAppend(rows[1..], r);
      assert (rows + [r])[1..] == rows[1..] + [r];
    }
  }
}
