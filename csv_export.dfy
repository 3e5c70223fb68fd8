/** The support-message CSV export: `escapeCsv` and the assembly of the
    file from a fixed header and one line per message. Its inverse here is
    a reader for exactly that format, which quotes every text field, so a
    field may itself hold commas, quotes and line breaks. */
module CsvExport {
  import opened Wrappers
  import opened JsValues

  /** Every `"` doubled, every other character kept
      (`s.replace(/"/g, '""')`). */
  function DoubleQuotes(s: string): (r: string)
    ensures |r| >= |s|
  {
    if s == [] then []
    else (if s[0] == '"' then "\"\"" else [s[0]]) + DoubleQuotes(s[1..])
  }

  /** `escapeCsv(v)`: `null`/`undefined` read as the empty string, and the
      text is wrapped in one leading and one trailing `"`. */
  function EscapeCsv(v: Option<string>): (r: string)
    ensures |r| >= 2 && r[0] == '"' && r[|r| - 1] == '"'
  {
    "\"" + DoubleQuotes(v.GetOr("")) + "\""
  }

  function QuoteCount(s: string): nat {
    if s == [] then 0 else (if s[0] == '"' then 1 else 0) + QuoteCount(s[1..])
  }

  lemma {:induction false} QuoteCountAppend(a: string, b: string)
    ensures QuoteCount(a + b) == QuoteCount(a) + QuoteCount(b)
  {
    if a != [] {
      assert (a + b)[1..] == a[1..] + b;
      QuoteCountAppend(a[1..], b);
    } else {
      assert a + b == b;
    }
  }

  /** Escaping doubles every quote and adds nothing else but the two
      outer quotes. */
  lemma {:induction false} DoubleQuotesCount(s: string)
    ensures QuoteCount(DoubleQuotes(s)) == 2 * QuoteCount(s)
    ensures |DoubleQuotes(s)| == |s| + QuoteCount(s)
  {
    if s != [] {
      DoubleQuotesCount(s[1..]);
      QuoteCountAppend(if s[0] == '"' then "\"\"" else [s[0]], DoubleQuotes(s[1..]));
    }
  }

  /** NULL and the empty string export alike. */
  lemma EscapeNullIsEmpty()
    ensures EscapeCsv(None) == EscapeCsv(Some("")) == "\"\""
  {
  }

  /*** Reading a quoted field back ***/

  /** Reads the inside of a quoted field up to its closing quote, taking
      `""` for one `"`; returns the value and the text after the closing
      quote, or `None` when the quote is never closed. */
  function ReadQuoted(t: string): (r: Option<(string, string)>)
    ensures r.Some? ==> |r.value.1| < |t|
  {
    if t == [] then None
    else if t[0] == '"' then
      if |t| > 1 && t[1] == '"' then
        match ReadQuoted(t[2..])
        case None => None
        case Some((v, rest)) => Some(("\"" + v, rest))
      else Some(([], t[1..]))
    else
      match ReadQuoted(t[1..])
      case None => None
      case Some((v, rest)) => Some(([t[0]] + v, rest))
  }

  /** Reads one quoted field at the start of `t`. */
  function ParseField(t: string): (r: Option<(string, string)>)
    ensures r.Some? ==> |r.value.1| < |t|
  {
    if t != [] && t[0] == '"' then ReadQuoted(t[1..]) else None
  }

  lemma {:induction false} ReadQuotedDoubled(s: string, rest: string)
    requires rest == [] || rest[0] != '"'
    ensures ReadQuoted(DoubleQuotes(s) + "\"" + rest) == Some((s, rest))
  {
    var t := DoubleQuotes(s) + "\"" + rest;
    if s == [] {
      assert t == "\"" + rest;
    } else {
      ReadQuotedDoubled(s[1..], rest);
      var tail := DoubleQuotes(s[1..]) + "\"" + rest;
      if s[0] == '"' {
        assert t == "\"\"" + tail;
        assert t[0] == '"' && t[1] == '"' && t[2..] == tail;
      } else {
        assert t == [s[0]] + tail;
        assert t[0] == s[0] && t[1..] == tail;
      }
      assert [s[0]] + s[1..] == s;
    }
  }

  /** Reading an escaped field back gives the text that was escaped (the
      empty string for NULL), and leaves what followed untouched. */
  lemma FieldRoundTrip(v: Option<string>, rest: string)
    requires rest == [] || rest[0] != '"'
    ensures ParseField(EscapeCsv(v) + rest) == Some((v.GetOr(""), rest))
  {
    var s := v.GetOr("");
    ReadQuotedDoubled(s, rest);
    assert EscapeCsv(v) + rest == "\"" + (DoubleQuotes(s) + "\"" + rest);
  }

  /** Splits `t` after its leading digits. */
  function ReadDigits(t: string): (r: (string, string))
    ensures r.0 + r.1 == t
    ensures forall k :: 0 <= k < |r.0| ==> IsDigit(r.0[k])
    ensures r.1 == [] || !IsDigit(r.1[0])
  {
    if t != [] && IsDigit(t[0]) then
      var (d, rest) := ReadDigits(t[1..]);
      ([t[0]] + d, rest)
    else ([], t)
  }

  lemma {:induction false} ReadDigitsOf(d: string, rest: string)
    requires forall k :: 0 <= k < |d| ==> IsDigit(d[k])
    requires rest == [] || !IsDigit(rest[0])
    ensures ReadDigits(d + rest) == (d, rest)
  {
    if d != [] {
      assert (d + rest)[1..] == d[1..] + rest;
      assert (d + rest)[0] == d[0];
      ReadDigitsOf(d[1..], rest);
      assert [d[0]] + d[1..] == d;
    } else {
      assert d + rest == rest;
    }
  }

  /*** The export file ***/

  /** The number of characters in all the parts together. */
  function TotalSize(parts: seq<string>): nat
  {
    if parts == [] then 0 else |parts[0]| + TotalSize(parts[1..])
  }

  /** `parts.join(sep)`: the first part, then one separator before each of
      the others, and nothing else. */
  function JoinWith(sep: char, parts: seq<string>): (r: string)
    ensures parts == [] ==> r == []
    ensures parts != [] ==> parts[0] <= r && |r| == TotalSize(parts) + |parts| - 1
  {
    if parts == [] then [] else parts[0] + Prefixed(sep, parts[1..])
  }

  /** Every part preceded by `sep`: what `join` puts after the first part. */
  function Prefixed(sep: char, parts: seq<string>): (r: string)
    ensures |r| == TotalSize(parts) + |parts|
  {
    if parts == [] then [] else [sep] + parts[0] + Prefixed(sep, parts[1..])
  }

  lemma PrefixedThen(sep: char, parts: seq<string>, rest: string)
    requires parts != []
    ensures Prefixed(sep, parts) + rest == [sep] + (parts[0] + (Prefixed(sep, parts[1..]) + rest))
  {
  }

  lemma JoinWithCons(sep: char, first: string, parts: seq<string>)
    ensures JoinWith(sep, [first] + parts) == first + Prefixed(sep, parts)
  {
    assert ([first] + parts)[1..] == parts;
  }

  /** A row of `SELECT id, sender_name, phone, message, created_at FROM
      support_messages`. */
  datatype SupportMessage = SupportMessage(
    id: nat,
    senderName: Option<string>,
    phone: Option<string>,
    message: Option<string>,
    createdAt: Option<string>)

  /** What a reader of the file sees of one message. */
  datatype Record = Record(id: nat, senderName: string, phone: string, message: string, createdAt: string)

  /** The header: the five column names joined with `,`. */
  const Header: string := "id,sender_name,phone,message,created_at"

  /** The four text columns of a message, in file order. */
  function TextFields(m: SupportMessage): seq<Option<string>>
  {
    [m.senderName, m.phone, m.message, m.createdAt]
  }

  /** `escapeCsv` applied to each value. */
  function Escaped(vs: seq<Option<string>>): (r: seq<string>)
    ensures |r| == |vs|
  {
    if vs == [] then [] else [EscapeCsv(vs[0])] + Escaped(vs[1..])
  }

  /** One message's line: the id unquoted, then the four text fields
      escaped, joined with `,`. */
  function Line(m: SupportMessage): (r: string)
    ensures Decimal(m.id) + "," <= r
  {
    var vs := Escaped(TextFields(m));
    JoinWithCons(',', Decimal(m.id), vs);
    JoinWith(',', [Decimal(m.id)] + vs)
  }

  /** `msgs.map(Line)`. */
  function Lines(msgs: seq<SupportMessage>): (r: seq<string>)
    ensures |r| == |msgs|
  {
    if msgs == [] then [] else [Line(msgs[0])] + Lines(msgs[1..])
  }

  /** `[header, ...lines].join("\n")`. */
  function ExportCsv(msgs: seq<SupportMessage>): (r: string)
    ensures Header <= r
    ensures msgs == [] ==> r == Header
  {
    JoinWith('\n', [Header] + Lines(msgs))
  }



  /** The text a reader gets back for each value: NULL reads as empty. */
  function Values(vs: seq<Option<string>>): (r: seq<string>)
    ensures |r| == |vs| && forall i :: 0 <= i < |vs| ==> r[i] == vs[i].GetOr("")
  {
    if vs == [] then [] else [vs[0].GetOr("")] + Values(vs[1..])
  }

  /** What survives the export of a message. */
  function Exported(m: SupportMessage): Record
  {
    Record(m.id, m.senderName.GetOr(""), m.phone.GetOr(""), m.message.GetOr(""), m.createdAt.GetOr(""))
  }

  function ExportedAll(msgs: seq<SupportMessage>): (r: seq<Record>)
    ensures |r| == |msgs| && forall i :: 0 <= i < |msgs| ==> r[i] == Exported(msgs[i])
  {
    if msgs == [] then [] else [Exported(msgs[0])] + ExportedAll(msgs[1..])
  }

  /** Reads `n` fields, each introduced by `,`. */
  function ParseFields(t: string, n: nat): (r: Option<(seq<string>, string)>)
    ensures r.Some? ==> |r.value.0| == n && |r.value.1| <= |t|
    decreases n
  {
    if n == 0 then Some(([], t))
    else if t != [] && t[0] == ',' then
      match ParseField(t[1..])
      case None => None
      case Some((f, rest)) =>
        match ParseFields(rest, n - 1)
        case None => None
        case Some((fs, rest')) => Some(([f] + fs, rest'))
    else None
  }

  /** Reads one line of the export: an id and four quoted fields. */
  function ParseRecord(t: string): (r: Option<(Record, string)>)
    ensures r.Some? ==> |r.value.1| < |t|
  {
    var (d, t0) := ReadDigits(t);
    if d == [] then None
    else
      match ParseFields(t0, 4)
      case None => None
      case Some((fs, rest)) => Some((Record(DigitsValue(d), fs[0], fs[1], fs[2], fs[3]), rest))
  }

  /** Reads the lines that follow the header, each introduced by `\n`. */
  function ParseRecords(t: string): Option<seq<Record>>
    decreases |t|
  {
    if t == [] then Some([])
    else if t[0] != '\n' then None
    else
      match ParseRecord(t[1..])
      case None => None
      case Some((r, rest)) =>
        match ParseRecords(rest)
        case None => None
        case Some(rs) => Some([r] + rs)
  }

  /** Reads an export file: the header, then the lines. */
  function ParseExport(csv: string): Option<seq<Record>>
  {
    if Header <= csv then ParseRecords(csv[|Header|..]) else None
  }

  lemma {:induction false} FieldsRoundTrip(vs: seq<Option<string>>, rest: string)
    requires rest == [] || rest[0] == '\n'
    ensures ParseFields(Prefixed(',', Escaped(vs)) + rest, |vs|) == Some((Values(vs), rest))
  {
    var es := Escaped(vs);
    if vs != [] {
      var tail := Prefixed(',', Escaped(vs[1..])) + rest;
      FieldsRoundTrip(vs[1..], rest);
      assert es[0] == EscapeCsv(vs[0]) && es[1..] == Escaped(vs[1..]);
      FieldRoundTrip(vs[0], tail);
      PrefixedThen(',', es, rest);
      var t := Prefixed(',', es) + rest;
      assert t[0] == ',' && t[1..] == EscapeCsv(vs[0]) + tail;
    } else {
      assert Prefixed(',', es) + rest == rest;
    }
  }

  /** A message's line reads back as what was exported of it, and the text
      after the line is left for the next read. */
  lemma RecordRoundTrip(m: SupportMessage, rest: string)
    requires rest == [] || rest[0] == '\n'
    ensures ParseRecord(Line(m) + rest) == Some((Exported(m), rest))
  {
    var vs := TextFields(m);
    var t0 := Prefixed(',', Escaped(vs)) + rest;
    JoinWithCons(',', Decimal(m.id), Escaped(vs));
    assert Line(m) + rest == Decimal(m.id) + t0;
    assert t0 == [] || t0[0] == ',';
    ReadDigitsOf(Decimal(m.id), t0);
    DecimalRoundTrip(m.id);
    FieldsRoundTrip(vs, rest);
  }

  lemma {:induction false} BodyRoundTrip(msgs: seq<SupportMessage>)
    ensures ParseRecords(Prefixed('\n', Lines(msgs))) == Some(ExportedAll(msgs))
  {
    if msgs != [] {
      var ls := Lines(msgs);
      var rest := Prefixed('\n', Lines(msgs[1..]));
      assert ls[0] == Line(msgs[0]) && ls[1..] == Lines(msgs[1..]);
      assert rest == [] || rest[0] == '\n';
      RecordRoundTrip(msgs[0], rest);
      PrefixedThen('\n', ls, []);
      assert Prefixed('\n', ls) + [] == Prefixed('\n', ls);
      assert rest + [] == rest;
      var t := Prefixed('\n', ls);
      assert t[0] == '\n' && t[1..] == Line(msgs[0]) + rest;
      BodyRoundTrip(msgs[1..]);
    }
  }

  /** The export is invertible: reading the file back yields, in order, one
      record per message with its id and its four text fields (NULL read
      as empty). */
  lemma ExportRoundTrip(msgs: seq<SupportMessage>)
    ensures ParseExport(ExportCsv(msgs)) == Some(ExportedAll(msgs))
  {
    JoinWithCons('\n', Header, Lines(msgs));
    BodyRoundTrip(msgs);
    assert (Header + Prefixed('\n', Lines(msgs)))[|Header|..] == Prefixed('\n', Lines(msgs));
  }

  /** The response body: a byte order mark, after which a reader finds
      every message back, field by field. */
  function ResponseBody(msgs: seq<SupportMessage>): (r: string)
    ensures |r| > 0 && r[0] == '\U{FEFF}'
    ensures ParseExport(r[1..]) == Some(ExportedAll(msgs))
  {
    ExportRoundTrip(msgs);
    var r := ['\U{FEFF}'] + ExportCsv(msgs);
    assert r[1..] == ExportCsv(msgs);
    r
  }
}
