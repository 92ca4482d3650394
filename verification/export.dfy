/**
 * The CSV download of the leaderboard (`exportCSV` in scripts/app.js): a header line, then
 * one line per loaded vote with the voter, the player voted for and the post's datetime
 * text, lines joined by "\n". The file is built from every loaded vote, whatever the slider
 * and the view mode show.
 *
 * As written, each field is put between double quotes with nothing escaped, so a name that
 * contains a double quote makes the line ambiguous (`LineAsWrittenAmbiguous`). `CsvLine` is
 * the evidently intended form, the quoted field of RFC 4180 (section 2, rule 7: a double
 * quote inside a quoted field is written twice), and `ParseCsv` reads such a file back.
 */
module Export {
  import opened Wrappers
  import opened Strings
  import opened Votes

  /** The first line of the file. */
  const Header := "Röstgivare,Röst,Tidpunkt"

  /** The three fields a line carries. */
  datatype Record = Record(from: string, to: string, stamp: string)

  function RecordOf(v: Vote): Record {
    Record(v.from, v.to, v.stamp)
  }

  // ---------------------------------------------------------------------------
  // As written
  // ---------------------------------------------------------------------------

  /** `"${v.from}","${v.to}","${v.timestamp}"`. */
  function LineAsWritten(v: Vote): string {
    "\"" + v.from + "\",\"" + v.to + "\",\"" + v.stamp + "\""
  }

  /** `[header, ...lines].join("\n")` with the lines as written. */
  function CsvAsWritten(all: seq<Vote>): string {
    Join([Header] + seq(|all|, i requires 0 <= i < |all| => LineAsWritten(all[i])), '\n')
  }

  /** A voter named `a","b` voting for `c` and a voter named `a` voting for `b","c` get the
      same line: the file cannot tell them apart. */
  lemma LineAsWrittenAmbiguous()
    ensures exists v, w :: RecordOf(v) != RecordOf(w) && LineAsWritten(v) == LineAsWritten(w)
  {
    var v := Vote("a\",\"b", "c", "1", "t", 0);
    var w := Vote("a", "b\",\"c", "1", "t", 0);
    assert LineAsWritten(v) == "\"a\",\"b\",\"c\",\"t\"";
    assert LineAsWritten(w) == "\"a\",\"b\",\"c\",\"t\"";
    assert RecordOf(v).from != RecordOf(w).from by {
      assert |v.from| != |w.from|;
    }
  }

  // ---------------------------------------------------------------------------
  // Quoted fields
  // ---------------------------------------------------------------------------

  /** The text of a field with every double quote written twice. */
  function Escape(f: string): (r: string)
    ensures forall c :: c in r ==> c in f
  {
    if f == [] then []
    else (if f[0] == '"' then "\"\"" else [f[0]]) + Escape(f[1..])
  }

  /** A field with no double quote needs no escaping. */
  lemma {:induction false} EscapePlain(f: string)
    requires '"' !in f
    ensures Escape(f) == f
  {
    if f != [] {
      assert f[0] in f;
      assert forall c :: c in f[1..] ==> c in f;
      EscapePlain(f[1..]);
      assert f == [f[0]] + f[1..];
    }
  }

  /** A field between double quotes, RFC 4180 style. */
  function Quote(f: string): string {
    "\"" + Escape(f) + "\""
  }

  /** The line for `v` with its fields quoted. */
  function CsvLine(v: Vote): string {
    Quote(v.from) + "," + Quote(v.to) + "," + Quote(v.stamp)
  }

  /** The lines for `all`, in order. */
  function Lines(all: seq<Vote>): (r: seq<string>)
    ensures |r| == |all|
    ensures forall i :: 0 <= i < |all| ==> r[i] == CsvLine(all[i])
  {
    seq(|all|, i requires 0 <= i < |all| => CsvLine(all[i]))
  }

  /** The file `exportCSV` means to write. */
  function ExportCsv(all: seq<Vote>): string {
    Join([Header] + Lines(all), '\n')
  }

  /** For names and datetimes without double quotes, the corrected line is the line the
      code writes. */
  lemma CsvLineAgrees(v: Vote)
    requires '"' !in v.from && '"' !in v.to && '"' !in v.stamp
    ensures CsvLine(v) == LineAsWritten(v)
  {
    EscapePlain(v.from);
    EscapePlain(v.to);
    EscapePlain(v.stamp);
  }

  // ---------------------------------------------------------------------------
  // Reading the file back
  // ---------------------------------------------------------------------------

  /** Reads the rest of a quoted field whose opening quote is already consumed: the field's
      text with doubled quotes undone, and what follows its closing quote. */
  function ReadQuoted(s: string): (r: Option<(string, string)>)
    ensures r.Some? ==> |r.value.1| < |s|
    decreases |s|
  {
    if s == [] then None
    else if s[0] != '"' then
      match ReadQuoted(s[1..])
      case None => None
      case Some((f, rest)) => Some(([s[0]] + f, rest))
    else if |s| >= 2 && s[1] == '"' then
      match ReadQuoted(s[2..])
      case None => None
      case Some((f, rest)) => Some(("\"" + f, rest))
    else Some(("", s[1..]))
  }

  /** A quoted field at the start of `s`. */
  function ReadField(s: string): (r: Option<(string, string)>)
    ensures r.Some? ==> |r.value.1| < |s|
  {
    if s != [] && s[0] == '"' then ReadQuoted(s[1..]) else None
  }

  /** Reading an escaped field gives back the field, as long as the character after the
      closing quote is not itself a quote. */
  lemma {:induction false} ReadEscaped(f: string, rest: string)
    requires rest == [] || rest[0] != '"'
    ensures ReadQuoted(Escape(f) + "\"" + rest) == Some((f, rest))
  {
    var s := Escape(f) + "\"" + rest;
    if f == [] {
      assert s == "\"" + rest;
      assert s[1..] == rest;
    } else {
      ReadEscaped(f[1..], rest);
      var t := Escape(f[1..]) + "\"" + rest;
      if f[0] == '"' {
        assert s == "\"\"" + t;
        assert s[2..] == t;
      } else {
        assert s == [f[0]] + t;
        assert s[1..] == t;
      }
      assert f == [f[0]] + f[1..];
    }
  }

  lemma ReadQuote(f: string, rest: string)
    requires rest == [] || rest[0] != '"'
    ensures ReadField(Quote(f) + rest) == Some((f, rest))
  {
    var s := Quote(f) + rest;
    assert s == "\"" + (Escape(f) + "\"" + rest);
    assert s[1..] == Escape(f) + "\"" + rest;
    ReadEscaped(f, rest);
  }

  /** Three quoted fields separated by commas at the start of `s`, and what follows them. */
  function ReadRecord(s: string): (r: Option<(Record, string)>)
    ensures r.Some? ==> |r.value.1| < |s|
  {
    match ReadField(s)
    case None => None
    case Some((a, r1)) =>
      if r1 == [] || r1[0] != ',' then None
      else
        match ReadField(r1[1..])
        case None => None
        case Some((b, r2)) =>
          if r2 == [] || r2[0] != ',' then None
          else
            match ReadField(r2[1..])
            case None => None
            case Some((c, r3)) => Some((Record(a, b, c), r3))
  }

  lemma ReadLine(v: Vote, rest: string)
    requires rest == [] || rest[0] != '"'
    ensures ReadRecord(CsvLine(v) + rest) == Some((RecordOf(v), rest))
  {
    var r3 := Quote(v.stamp) + rest;
    var r2 := "," + r3;
    var r1 := "," + Quote(v.to) + r2;
    assert CsvLine(v) + rest == Quote(v.from) + r1;
    ReadQuote(v.from, r1);
    assert r1[1..] == Quote(v.to) + r2;
    ReadQuote(v.to, r2);
    assert r2[1..] == r3;
    ReadQuote(v.stamp, rest);
  }

  /** Records each preceded by a line break, up to the end of `s`. */
  function ReadRecords(s: string): Option<seq<Record>>
    decreases |s|
  {
    if s == [] then Some([])
    else if s[0] != '\n' then None
    else
      match ReadRecord(s[1..])
      case None => None
      case Some((x, rest)) =>
        match ReadRecords(rest)
        case None => None
        case Some(xs) => Some([x] + xs)
  }

  /** Reads a file in the form `ExportCsv` writes: the header, then the records. */
  function ParseCsv(doc: string): Option<seq<Record>> {
    if |doc| >= |Header| && doc[..|Header|] == Header then ReadRecords(doc[|Header|..]) else None
  }

  /** The records of `all`, in order. */
  function Records(all: seq<Vote>): (r: seq<Record>)
    ensures |r| == |all|
    ensures forall i :: 0 <= i < |all| ==> r[i] == RecordOf(all[i])
  {
    seq(|all|, i requires 0 <= i < |all| => RecordOf(all[i]))
  }

  /** What follows a line in the file: nothing, or a line break and the next lines. */
  function Tail(lines: seq<string>): string {
    if lines == [] then "" else "\n" + Join(lines, '\n')
  }

  lemma JoinCons(x: string, xs: seq<string>)
    ensures Join([x] + xs, '\n') == x + Tail(xs)
  {
    if xs != [] {
      assert ([x] + xs)[1..] == xs;
    }
  }

  lemma {:induction false} ReadAll(all: seq<Vote>)
    ensures ReadRecords(Tail(Lines(all))) == Some(Records(all))
  {
    if all != [] {
      var rest := Tail(Lines(all[1..]));
      assert Lines(all) == [CsvLine(all[0])] + Lines(all[1..]);
      JoinCons(CsvLine(all[0]), Lines(all[1..]));
      var s := Tail(Lines(all));
      assert s == "\n" + (CsvLine(all[0]) + rest);
      assert s[1..] == CsvLine(all[0]) + rest;
      ReadLine(all[0], rest);
      ReadAll(all[1..]);
      assert Records(all) == [RecordOf(all[0])] + Records(all[1..]);
    }
  }

  /** The file gives back every vote's voter, target and datetime text, in order: no two
      different lists of votes produce the same file unless they agree on those fields. */
  lemma ExportRoundTrip(all: seq<Vote>)
    ensures ParseCsv(ExportCsv(all)) == Some(Records(all))
  {
    var doc := ExportCsv(all);
    JoinCons(Header, Lines(all));
    assert doc == Header + Tail(Lines(all));
    assert doc[..|Header|] == Header;
    assert doc[|Header|..] == Tail(Lines(all));
    ReadAll(all);
  }

  /** When no voter, target or datetime holds a double quote, the file the code writes is
      the corrected file, so it reads back to the votes' fields in order. */
  lemma CsvAsWrittenAgrees(all: seq<Vote>)
    requires forall i :: 0 <= i < |all| ==> '"' !in all[i].from && '"' !in all[i].to && '"' !in all[i].stamp
    ensures CsvAsWritten(all) == ExportCsv(all)
    ensures ParseCsv(CsvAsWritten(all)) == Some(Records(all))
  {
    forall i | 0 <= i < |all|
      ensures CsvLine(all[i]) == LineAsWritten(all[i])
    {
      CsvLineAgrees(all[i]);
    }
    assert seq(|all|, i requires 0 <= i < |all| => LineAsWritten(all[i])) == Lines(all);
    ExportRoundTrip(all);
  }

  /** Two votes with the same corrected line agree on every field the line carries. */
  lemma CsvLineInjective(v: Vote, w: Vote)
    requires CsvLine(v) == CsvLine(w)
    ensures RecordOf(v) == RecordOf(w)
  {
    ReadLine(v, "");
    ReadLine(w, "");
    assert CsvLine(v) + "" == CsvLine(v);
    assert CsvLine(w) + "" == CsvLine(w);
  }
}
