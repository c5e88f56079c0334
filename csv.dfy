/**
 * The CSV text the roster export builds: every field wrapped in double
 * quotes with inner quotes doubled (the quoting of section 2 of RFC 4180),
 * fields joined by commas and records by a bare line feed; and a reader
 * for exactly that shape, so that what is written can be read back.
 */
module Csv {
  import opened Common
  import opened Seqs

  /** `String(v).replace(/"/g, '""')` */
  function Escape(v: string): (r: string)
    ensures |r| >= |v|
  {
    if v == [] then []
    else (if v[0] == '"' then "\"\"" else [v[0]]) + Escape(v[1..])
  }

  /** One field as written: opening quote, escaped value, closing quote. */
  function Quote(v: string): (r: string)
    ensures |r| >= 2 && r[0] == '"' && r[|r| - 1] == '"'
  {
    "\"" + Escape(v) + "\""
  }

  /** `parts.join(sep)` */
  function Join(parts: seq<string>, sep: char): string
  {
    if parts == [] then []
    else if |parts| == 1 then parts[0]
    else parts[0] + [sep] + Join(parts[1..], sep)
  }

  function Record(fields: seq<string>): string {
    Join(Map(fields, Quote), ',')
  }

  function Document(records: seq<seq<string>>): string {
    Join(Map(records, Record), '\n')
  }

  /**
   * Reads the rest of a quoted field after its opening quote: the value
   * (with each doubled quote read as one) and what follows the closing
   * quote. `None` when the closing quote is missing.
   */
  function ReadQuoted(s: string): (r: Option<(string, string)>)
    ensures r.Some? ==> |r.value.1| < |s|
    decreases |s|
  {
    if s == [] then None
    else if s[0] == '"' then
      if |s| >= 2 && s[1] == '"' then
        match ReadQuoted(s[2..])
        case None => None
        case Some((v, rest)) => Some(("\"" + v, rest))
      else Some(([], s[1..]))
    else
      match ReadQuoted(s[1..])
      case None => None
      case Some((v, rest)) => Some(([s[0]] + v, rest))
  }

  /** Reads comma-separated quoted fields up to the end of one record. */
  function ReadFields(s: string): (r: Option<(seq<string>, string)>)
    ensures r.Some? ==> |r.value.1| < |s| && r.value.0 != []
    decreases |s|
  {
    if s == [] || s[0] != '"' then None
    else match ReadQuoted(s[1..])
      case None => None
      case Some((v, rest)) =>
        if rest != [] && rest[0] == ',' then
          match ReadFields(rest[1..])
          case None => None
          case Some((vs, rest')) => Some(([v] + vs, rest'))
        else Some(([v], rest))
  }

  /** Reads a document of quoted records separated by line feeds. */
  function Parse(s: string): (r: Option<seq<seq<string>>>)
    ensures r.Some? ==> r.value != []
    decreases |s|
  {
    match ReadFields(s)
    case None => None
    case Some((fields, rest)) =>
      if rest == [] then Some([fields])
      else if rest[0] == '\n' then
        match Parse(rest[1..])
        case None => None
        case Some(more) => Some([fields] + more)
      else None
  }

  /** An escaped value followed by the closing quote reads back as the value. */
  lemma {:induction false} ReadQuotedEscape(v: string, t: string)
    requires t == [] || t[0] != '"'
    ensures ReadQuoted(Escape(v) + "\"" + t) == Some((v, t))
    decreases |v|
  {
    var s := Escape(v) + "\"" + t;
    if v == [] {
      assert s == "\"" + t;
      assert s[1..] == t;
    } else {
      ReadQuotedEscape(v[1..], t);
      var tail := Escape(v[1..]) + "\"" + t;
      assert v == [v[0]] + v[1..];
      if v[0] == '"' {
        assert s == "\"\"" + tail;
        assert s[2..] == tail;
      } else {
        assert s == [v[0]] + tail;
        assert s[1..] == tail;
      }
    }
  }

  /** A record of several fields is its first field, a comma, and the record of the rest. */
  lemma RecordCons(fields: seq<string>)
    requires |fields| >= 2
    ensures Record(fields) == Quote(fields[0]) + [','] + Record(fields[1..])
  {
    assert Map(fields, Quote)[1..] == Map(fields[1..], Quote);
  }

  /** A record of one field is that field quoted. */
  lemma RecordSingle(fields: seq<string>)
    requires |fields| == 1
    ensures Record(fields) == Quote(fields[0])
  {
    assert Map(fields, Quote) == [Quote(fields[0])];
  }

  /** A document of one record is that record. */
  lemma DocumentSingle(records: seq<seq<string>>)
    requires |records| == 1
    ensures Document(records) == Record(records[0])
  {
    assert Map(records, Record) == [Record(records[0])];
  }

  lemma AppendAssoc(a: string, b: string, c: string, t: string)
    ensures a + b + c + t == a + (b + (c + t))
  {
  }

  /** A document of several records is its first record, a line feed, and the document of the rest. */
  lemma DocumentCons(records: seq<seq<string>>)
    requires |records| >= 2
    ensures Document(records) == Record(records[0]) + ['\n'] + Document(records[1..])
  {
    assert Map(records, Record)[1..] == Map(records[1..], Record);
  }

  /** A quoted value followed by `t` reads back as the value and `t`. */
  lemma ReadQuote(v: string, t: string)
    requires t == [] || t[0] != '"'
    ensures var s := Quote(v) + t; s != [] && s[0] == '"' && ReadQuoted(s[1..]) == Some((v, t))
  {
    var s := Quote(v) + t;
    assert s[1..] == Escape(v) + "\"" + t;
    ReadQuotedEscape(v, t);
  }

  /** A last quoted field reads back as one field, leaving what follows it. */
  lemma ReadFieldsLast(v: string, t: string)
    requires t == [] || t[0] == '\n'
    ensures ReadFields(Quote(v) + t) == Some(([v], t))
  {
    ReadQuote(v, t);
  }

  /** A quoted field followed by a comma reads back ahead of the fields after the comma. */
  lemma ReadFieldsNext(v: string, more: string, vs: seq<string>, t: string)
    requires ReadFields(more) == Some((vs, t))
    ensures ReadFields(Quote(v) + ([','] + more)) == Some(([v] + vs, t))
  {
    ReadQuote(v, [','] + more);
    assert ([','] + more)[1..] == more;
  }

  /** A written record followed by the end of text or a line feed reads back as its fields. */
  lemma {:induction false} ReadFieldsRecord(fields: seq<string>, t: string)
    requires fields != []
    requires t == [] || t[0] == '\n'
    ensures ReadFields(Record(fields) + t) == Some((fields, t))
    decreases |fields|
  {
    if |fields| == 1 {
      RecordSingle(fields);
      ReadFieldsLast(fields[0], t);
      assert fields == [fields[0]];
    } else {
      RecordCons(fields);
      var more := Record(fields[1..]) + t;
      ReadFieldsRecord(fields[1..], t);
      ReadFieldsNext(fields[0], more, fields[1..], t);
      AppendAssoc(Quote(fields[0]), [','], Record(fields[1..]), t);
      assert fields == [fields[0]] + fields[1..];
    }
  }

  /** Fields that end the text are a document of one record. */
  lemma ParseLast(s: string, fields: seq<string>)
    requires ReadFields(s) == Some((fields, []))
    ensures Parse(s) == Some([fields])
  {
  }

  /** Fields followed by a line feed are the first record of the document after it. */
  lemma ParseNext(s: string, fields: seq<string>, more: string, records: seq<seq<string>>)
    requires ReadFields(s) == Some((fields, ['\n'] + more)) && Parse(more) == Some(records)
    ensures Parse(s) == Some([fields] + records)
  {
    assert (['\n'] + more)[1..] == more;
  }

  /** Every document of non-empty records reads back as exactly its records. */
  lemma {:induction false} ParseDocument(records: seq<seq<string>>)
    requires records != []
    requires forall i :: 0 <= i < |records| ==> records[i] != []
    ensures Parse(Document(records)) == Some(records)
    decreases |records|
  {
    if |records| == 1 {
      DocumentSingle(records);
      ReadFieldsRecord(records[0], []);
      assert Record(records[0]) + [] == Document(records);
      ParseLast(Document(records), records[0]);
      assert records == [records[0]];
    } else {
      DocumentCons(records);
      var more := Document(records[1..]);
      ParseDocument(records[1..]);
      ReadFieldsRecord(records[0], ['\n'] + more);
      AppendAssoc(Record(records[0]), ['\n'], more, []);
      assert Record(records[0]) + (['\n'] + more) == Document(records);
      ParseNext(Document(records), records[0], more, records[1..]);
      assert records == [records[0]] + records[1..];
    }
  }
}
