/** A line-oriented reader for the line protocol, under the escaping rules the printer states: in an
    unquoted part a backslash protects a backslash, comma, space or equals sign, in a quoted value a
    backslash or quote, and elsewhere it stands for itself.  Empty lines and lines that start with `#`
    are skipped; names and tag values are not empty; numbers are finite.  Against this reader it is
    shown exactly when the printer round trips. */
module LineReader {
  import opened Basics
  import opened DecimalText
  import opened SortedItems
  import opened LineProtocol

  datatype Parsed<+T> = Parsed(value: T, rest: string)

  datatype Record = Record(measurement: string, tags: Items<string>, fields: Items<Field>, timestamp: Option<int>)

  // ---- the reader -------------------------------------------------------------------------------------------

  /** What a backslash protects in an unquoted part and in a quoted value. */
  predicate Protects(c: char) {
    c == '\\' || c == ',' || c == ' ' || c == '='
  }

  predicate ProtectsQuoted(c: char) {
    c == '\\' || c == '"'
  }

  predicate Ends(c: char) {
    c == ',' || c == ' ' || c == '=' || c == '\n'
  }

  predicate At(s: string, c: char) {
    s != "" && s[0] == c
  }

  /** A measurement, tag key, tag value or field key. */
  function ReadPart(s: string): (r: Parsed<string>)
    ensures |r.rest| <= |s|
    decreases |s|
  {
    if s == "" || Ends(s[0]) then Parsed("", s)
    else if s[0] == '\\' && |s| > 1 && Protects(s[1]) then
      var more := ReadPart(s[2..]);
      Parsed([s[1]] + more.value, more.rest)
    else
      var more := ReadPart(s[1..]);
      Parsed([s[0]] + more.value, more.rest)
  }

  /** The rest of a quoted string, up to and including the closing quote. */
  function ReadQuoted(s: string): (r: Option<Parsed<string>>)
    ensures r.Some? ==> |r.value.rest| < |s|
    decreases |s|
  {
    if s == "" then None
    else if s[0] == '"' then Some(Parsed("", s[1..]))
    else if s[0] == '\\' && |s| > 1 && ProtectsQuoted(s[1]) then
      var more := ReadQuoted(s[2..]);
      if more.None? then None else Some(Parsed([s[1]] + more.value.value, more.value.rest))
    else
      var more := ReadQuoted(s[1..]);
      if more.None? then None else Some(Parsed([s[0]] + more.value.value, more.value.rest))
  }

  /** An unquoted value: everything up to a comma, a space or the end of the line. */
  function ReadToken(s: string): (r: Parsed<string>)
    ensures |r.rest| <= |s|
  {
    if s == "" || s[0] == ',' || s[0] == ' ' || s[0] == '\n' then Parsed("", s)
    else
      var more := ReadToken(s[1..]);
      Parsed([s[0]] + more.value, more.rest)
  }

  /** Which typed value a token is. */
  function TypedValue(t: string): Option<Field> {
    if t == "true" then Some(Bool(true))
    else if t == "false" then Some(Bool(false))
    else if t != "" && t[|t| - 1] == 'i' then
      var n := ReadInt(t[..|t| - 1]);
      if n.None? then None else Some(Int(n.value))
    else if IsNumber(t) then Some(Float(t))
    else None
  }

  function ReadValue(s: string): (r: Option<Parsed<Field>>)
    ensures r.Some? ==> |r.value.rest| <= |s|
  {
    if At(s, '"') then
      var text := ReadQuoted(s[1..]);
      if text.None? then None else Some(Parsed(Str(text.value.value), text.value.rest))
    else
      var token := ReadToken(s);
      var v := TypedValue(token.value);
      if v.None? then None else Some(Parsed(v.value, token.rest))
  }

  /** Any number of tags, each with its comma. */
  function ReadTags(s: string): (r: Option<Parsed<Items<string>>>)
    ensures r.Some? ==> |r.value.rest| <= |s|
    decreases |s|
  {
    if !At(s, ',') then Some(Parsed([], s))
    else
      var key := ReadPart(s[1..]);
      if key.value == "" || !At(key.rest, '=') then None
      else
        var value := ReadPart(key.rest[1..]);
        var more := ReadTags(value.rest);
        if value.value == "" || more.None?
            then None else Some(Parsed([(key.value, value.value)] + more.value.value, more.value.rest))
  }

  /** One or more fields, separated by commas. */
  function ReadFields(s: string): (r: Option<Parsed<Items<Field>>>)
    ensures r.Some? ==> |r.value.rest| < |s|
    decreases |s|
  {
    var key := ReadPart(s);
    if key.value == "" || !At(key.rest, '=') then None
    else
      var value := ReadValue(key.rest[1..]);
      if value.None? then None
      else if !At(value.value.rest, ',') then Some(Parsed([(key.value, value.value.value)], value.value.rest))
      else
        var more := ReadFields(value.value.rest[1..]);
        if more.None? then None else Some(Parsed([(key.value, value.value.value)] + more.value.value, more.value.rest))
  }

  /** An optional timestamp and the end of the line. */
  function ReadStamp(s: string): (r: Option<Parsed<Option<int>>>)
    ensures r.Some? ==> |r.value.rest| < |s|
  {
    if At(s, '\n') then Some(Parsed(None, s[1..]))
    else if !At(s, ' ') then None
    else
      var token := ReadToken(s[1..]);
      if ReadInt(token.value).None? || !At(token.rest, '\n') then None
      else Some(Parsed(ReadInt(token.value), token.rest[1..]))
  }

  function ReadLine(s: string): (r: Option<Parsed<Record>>)
    ensures r.Some? ==> |r.value.rest| < |s|
  {
    var measurement := ReadPart(s);
    var tags := ReadTags(measurement.rest);
    if measurement.value == "" || tags.None? || !At(tags.value.rest, ' ') then None
    else
      var fields := ReadFields(tags.value.rest[1..]);
      if fields.None? then None
      else
        var stamp := ReadStamp(fields.value.rest);
        if stamp.None? then None
        else Some(Parsed(Record(measurement.value, tags.value.value, fields.value.value, stamp.value.value),
            stamp.value.rest))
  }

  /** What follows the end of the line. */
  function AfterLine(s: string): (r: string)
    requires s != ""
    ensures |r| < |s|
  {
    if s[0] == '\n' || |s| == 1 then s[1..] else AfterLine(s[1..])
  }

  function Read(s: string): Option<seq<Record>>
    decreases |s|
  {
    if s == "" then Some([])
    else if s[0] == '\n' || s[0] == '#' then Read(AfterLine(s))
    else
      var line := ReadLine(s);
      if line.None? then None
      else
        var more := Read(line.value.rest);
        if more.None? then None else Some([line.value.value] + more.value)
  }

  // ---- what can be printed ------------------------------------------------------------------------------------

  ghost predicate OneLine(s: string) {
    '\n' !in s
  }

  ghost predicate Named(s: string) {
    s != "" && OneLine(s)
  }

  ghost predicate Titled(s: string) {
    Named(s) && s[0] != '#'
  }

  ghost predicate Finite(v: Field) {
    v.Float? ==> IsNumber(v.text)
  }

  ghost predicate TagsFit(tags: Items<string>) {
    forall i | 0 <= i < |tags| :: Named(tags[i].0) && Named(tags[i].1)
  }

  ghost predicate FieldsFit(fields: Items<Field>) {
    forall i | 0 <= i < |fields| :: Named(fields[i].0) && Finite(fields[i].1)
  }

  ghost predicate RecordFits(r: Record) {
    Titled(r.measurement) && TagsFit(r.tags) && r.fields != [] && FieldsFit(r.fields)
  }

  /** At least one field; no unquoted part empty or with a newline; no measurement that starts a comment;
      no infinite number. */
  ghost predicate Fits(p: Point) {
    && Titled(p.measurement)
    && (forall k | k in p.tags :: Named(k) && Named(p.tags[k]))
    && p.fields.Keys != {}
    && (forall k | k in p.fields :: Named(k) && Finite(p.fields[k]))
  }

  ghost predicate AllFit(points: seq<Point>) {
    forall i | 0 <= i < |points| :: Fits(points[i])
  }

  ghost function RecordOf(p: Point): Record {
    Record(p.measurement, Listing(p.tags), Listing(p.fields), p.timestamp)
  }

  ghost function RecordsOf(points: seq<Point>): (r: seq<Record>) {
    seq(|points|, i requires 0 <= i < |points| => RecordOf(points[i]))
  }

  // ---- reading back, piece by piece ------------------------------------------------------------------------------

  lemma PartStep(s: string, rest: string)
    requires s != ""
    ensures Escape(s) + rest == EscapeChar(s[0]) + (Escape(s[1..]) + rest)
  {
  }

  lemma ReadPartPlain(c: char, tail: string)
    requires !Special(c) && c != '\n'
    ensures ReadPart([c] + tail) == Parsed([c] + ReadPart(tail).value, ReadPart(tail).rest)
  {
    assert ([c] + tail)[1..] == tail;
  }

  lemma ReadPartProtected(c: char, tail: string)
    requires Special(c)
    ensures ReadPart(['\\', c] + tail) == Parsed([c] + ReadPart(tail).value, ReadPart(tail).rest)
  {
    assert (['\\', c] + tail)[2..] == tail;
  }

  lemma ReadPartEnds(rest: string)
    requires rest == "" || Ends(rest[0])
    ensures ReadPart(rest) == Parsed("", rest)
  {
  }

  lemma {:induction false} PartReadsBack(s: string, rest: string)
    requires OneLine(s) && (rest == "" || Ends(rest[0]))
    ensures ReadPart(Escape(s) + rest) == Parsed(s, rest)
    decreases |s|
  {
    hide ReadPart, Escape, Special, Ends;
    if s == "" {
      EscapeNothing();
      assert Escape(s) + rest == rest;
      ReadPartEnds(rest);
    } else {
      PartReadsBack(s[1..], rest);
      PartStep(s, rest);
      var tail := Escape(s[1..]) + rest;
      assert s == [s[0]] + s[1..];
      if Special(s[0]) {
        ReadPartProtected(s[0], tail);
      } else {
        ReadPartPlain(s[0], tail);
      }
    }
  }

  lemma QuotedStep(s: string, rest: string)
    requires s != ""
    ensures EscapeQuoted(s) + rest == EscapeQuotedChar(s[0]) + (EscapeQuoted(s[1..]) + rest)
  {
  }

  lemma ReadQuotedChar(c: char, tail: string, after: Parsed<string>)
    requires ReadQuoted(tail) == Some(after)
    ensures !QuotedSpecial(c) ==> ReadQuoted([c] + tail) == Some(Parsed([c] + after.value, after.rest))
    ensures QuotedSpecial(c) ==> ReadQuoted(['\\', c] + tail) == Some(Parsed([c] + after.value, after.rest))
  {
    assert ([c] + tail)[1..] == tail;
    assert (['\\', c] + tail)[2..] == tail;
  }

  lemma ReadQuotedEnds(rest: string)
    ensures ReadQuoted("\"" + rest) == Some(Parsed("", rest))
  {
    assert ("\"" + rest)[1..] == rest;
  }

  lemma {:induction false} QuotedReadsBack(s: string, rest: string)
    ensures ReadQuoted(EscapeQuoted(s) + ("\"" + rest)) == Some(Parsed(s, rest))
    decreases |s|
  {
    hide ReadQuoted, EscapeQuoted, QuotedSpecial;
    if s == "" {
      EscapeNothing();
      assert EscapeQuoted(s) + ("\"" + rest) == "\"" + rest;
      ReadQuotedEnds(rest);
    } else {
      QuotedReadsBack(s[1..], rest);
      QuotedStep(s, "\"" + rest);
      assert s == [s[0]] + s[1..];
      ReadQuotedChar(s[0], EscapeQuoted(s[1..]) + ("\"" + rest), Parsed(s[1..], rest));
    }
  }

  ghost predicate IsToken(t: string) {
    forall i | 0 <= i < |t| :: t[i] != ',' && t[i] != ' ' && t[i] != '\n'
  }

  lemma {:induction false} TokenReadsBack(t: string, rest: string)
    requires IsToken(t) && (rest == "" || rest[0] == ',' || rest[0] == ' ' || rest[0] == '\n')
    ensures ReadToken(t + rest) == Parsed(t, rest)
    decreases |t|
  {
    if t == "" {
      assert t + rest == rest;
    } else {
      TokenReadsBack(t[1..], rest);
      assert (t + rest)[1..] == t[1..] + rest && (t + rest)[0] == t[0];
      assert t == [t[0]] + t[1..];
    }
  }

  /** Digits and perhaps a sign in front. */
  lemma IntText(n: int)
    ensures var t := PrintInt(n);
            t != "" && (forall i | 0 <= i < |t| :: IsDigit(t[i]) || t[i] == '-')
  {
    PrintNatIsCanonical(if n < 0 then -n else n);
    hide PrintNat;
    var t := PrintInt(n);
    if n < 0 {
      assert forall i | 0 < i < |t| :: t[i] == PrintNat(-n)[i - 1];
    }
  }

  lemma ValueIsToken(v: Field)
    requires !v.Str? && Finite(v)
    ensures var t := ValueText(v);
            t != "" && IsToken(t) && t[0] != '"' && TypedValue(t) == Some(v)
  {
    hide PrintInt, ReadInt;
    match v
    case Float(text) =>
      FloatIsTyped(text);
    case Int(n) =>
      IntText(n);
      ReadPrintInt(n);
      var t := PrintInt(n) + "i";
      assert t[..|t| - 1] == PrintInt(n);
      assert t[0] == PrintInt(n)[0];
    case Bool(_) =>
  }

  lemma FloatIsTyped(text: FloatText)
    requires IsNumber(text)
    ensures text != "" && IsToken(text) && text[0] != '"' && TypedValue(text) == Some(Float(text))
  {
    hide ReadInt;
    assert text[0] != 't' && text[0] != 'f' && text[|text| - 1] != 'i';
  }

  lemma ValueReadsBack(v: Field, rest: string)
    requires Finite(v) && rest != "" && (rest[0] == ',' || rest[0] == ' ' || rest[0] == '\n')
    ensures ReadValue(ValueText(v) + rest) == Some(Parsed(v, rest))
  {
    hide ReadQuoted, ReadToken, TypedValue, EscapeQuoted;
    var s := ValueText(v) + rest;
    if v.Str? {
      var Str(text) := v;
      assert s[1..] == EscapeQuoted(text) + ("\"" + rest);
      QuotedReadsBack(text, rest);
    } else {
      ValueIsToken(v);
      assert s[0] == ValueText(v)[0];
      TokenReadsBack(ValueText(v), rest);
    }
  }

  lemma TagStep(tags: Items<string>, rest: string)
    requires tags != []
    ensures TagText(tags) + rest ==
              "," + (Escape(tags[0].0) + ("=" + (Escape(tags[0].1) + (TagText(tags[1..]) + rest))))
  {
    hide Escape;
  }

  lemma ReadTag(k: string, v: string, tail: string, more: Parsed<Items<string>>)
    requires Named(k) && Named(v) && (At(tail, ',') || At(tail, ' ')) && ReadTags(tail) == Some(more)
    ensures ReadTags("," + (Escape(k) + ("=" + (Escape(v) + tail)))) == Some(Parsed([(k, v)] + more.value, more.rest))
  {
    hide ReadPart, Escape, OneLine;
    var value := Escape(v) + tail;
    var key := Escape(k) + ("=" + value);
    assert ("," + key)[1..] == key && ("=" + value)[1..] == value;
    PartReadsBack(k, "=" + value);
    PartReadsBack(v, tail);
  }

  lemma NoTags(rest: string)
    requires At(rest, ' ')
    ensures TagText([]) + rest == rest && ReadTags(rest) == Some(Parsed([], rest))
  {
  }

  lemma {:induction false} TagsReadBack(tags: Items<string>, rest: string)
    requires TagsFit(tags) && At(rest, ' ')
    ensures ReadTags(TagText(tags) + rest) == Some(Parsed(tags, rest))
    ensures At(TagText(tags) + rest, ',') || At(TagText(tags) + rest, ' ')
    decreases |tags|
  {
    hide Escape, Named, ReadTags, TagText;
    if tags == [] {
      NoTags(rest);
    } else {
      TagsReadBack(tags[1..], rest);
      TagStep(tags, rest);
      ReadTag(tags[0].0, tags[0].1, TagText(tags[1..]) + rest, Parsed(tags[1..], rest));
      assert tags == [tags[0]] + tags[1..];
    }
  }

  lemma {:induction false} FieldsReadBack(fields: Items<Field>, rest: string)
    requires fields != [] && FieldsFit(fields) && (At(rest, ' ') || At(rest, '\n'))
    ensures ReadFields(FieldText(fields) + rest) == Some(Parsed(fields, rest))
    decreases |fields|
  {
    hide ReadPart, Escape, OneLine, ReadValue, ValueText, Finite;
    var s := FieldText(fields) + rest;
    var (k, v) := fields[0];
    var tail := if |fields| == 1 then rest else "," + (FieldText(fields[1..]) + rest);
    assert s == Escape(k) + ("=" + (ValueText(v) + tail));
    PartReadsBack(k, "=" + (ValueText(v) + tail));
    assert ("=" + (ValueText(v) + tail))[1..] == ValueText(v) + tail;
    ValueReadsBack(v, tail);
    if |fields| == 1 {
      assert fields == [fields[0]];
    } else {
      FieldsReadBack(fields[1..], rest);
      assert tail[1..] == FieldText(fields[1..]) + rest;
      assert fields == [fields[0]] + fields[1..];
    }
  }

  lemma StampReadsBack(timestamp: Option<int>, rest: string)
    ensures ReadStamp(StampText(timestamp) + "\n" + rest) == Some(Parsed(timestamp, rest))
    ensures At(StampText(timestamp) + "\n" + rest, ' ') || At(StampText(timestamp) + "\n" + rest, '\n')
  {
    hide ReadToken, ReadInt, PrintInt;
    var s := StampText(timestamp) + "\n" + rest;
    if timestamp.None? {
      assert s[1..] == rest;
    } else {
      var t := PrintInt(timestamp.value);
      IntText(timestamp.value);
      ReadPrintInt(timestamp.value);
      assert s[1..] == t + ("\n" + rest);
      TokenReadsBack(t, "\n" + rest);
      assert ("\n" + rest)[1..] == rest;
    }
  }

  lemma LineStarts(r: Record, rest: string)
    requires Titled(r.measurement)
    ensures var s := LineText(r.measurement, r.tags, r.fields, r.timestamp) + rest;
            s != "" && s[0] != '#' && s[0] != '\n'
  {
    hide TagText, FieldText, StampText;
    assert Escape(r.measurement)[0] == if Special(r.measurement[0]) then '\\' else r.measurement[0];
  }

  lemma LineReadsBack(r: Record, rest: string)
    requires RecordFits(r)
    ensures ReadLine(LineText(r.measurement, r.tags, r.fields, r.timestamp) + rest) == Some(Parsed(r, rest))
  {
    hide ReadPart, ReadTags, ReadFields, ReadStamp, Escape, TagText, FieldText, StampText, TagsFit, FieldsFit, OneLine;
    var stamp := StampText(r.timestamp) + "\n" + rest;
    var fields := " " + (FieldText(r.fields) + stamp);
    var tags := TagText(r.tags) + fields;
    var s := LineText(r.measurement, r.tags, r.fields, r.timestamp) + rest;
    assert s == Escape(r.measurement) + tags;
    StampReadsBack(r.timestamp, rest);
    FieldsReadBack(r.fields, stamp);
    assert fields[1..] == FieldText(r.fields) + stamp;
    TagsReadBack(r.tags, fields);
    PartReadsBack(r.measurement, tags);
  }

  // ---- batches --------------------------------------------------------------------------------------------------

  lemma PrintOne(p: Point)
    ensures Print([p]) == PointText(p)
  {
    hide PointText;
    assert [p][..0] == [];
  }

  lemma PrintLast(points: seq<Point>)
    requires points != []
    ensures Print(points) == Print(points[..|points| - 1]) + PointText(points[|points| - 1])
  {
    hide PointText;
  }

  lemma {:induction false} PrintHead(points: seq<Point>)
    requires points != []
    ensures Print(points) == PointText(points[0]) + Print(points[1..])
    decreases |points|
  {
    hide PointText, Print;
    if |points| == 1 {
      PrintOne(points[0]);
      PrintNothing();
      assert points == [points[0]] && points[1..] == [];
    } else {
      var front, last := points[..|points| - 1], points[|points| - 1];
      PrintHead(front);
      PrintLast(points);
      PrintLast(points[1..]);
      assert front[1..] == points[1..][..|points| - 2];
    }
  }

  lemma PointFits(p: Point)
    ensures Fits(p) <==> RecordFits(RecordOf(p))
  {
    hide Listing, Named, Titled, Finite;
    ListingLists(p.tags);
    ListingLists(p.fields);
    var tags, fields := Listing(p.tags), Listing(p.fields);
    if TagsFit(tags) {
      forall k | k in p.tags
        ensures Named(k) && Named(p.tags[k])
      {
        var i :| 0 <= i < |tags| && tags[i].0 == k;
      }
    }
    if FieldsFit(fields) {
      forall k | k in p.fields
        ensures Named(k) && Finite(p.fields[k])
      {
        var i :| 0 <= i < |fields| && fields[i].0 == k;
      }
    }
    if fields != [] {
      assert fields[0].0 in p.fields.Keys;
    }
    if p.fields.Keys != {} {
      var k :| k in p.fields.Keys;
      var i :| 0 <= i < |fields| && fields[i].0 == k;
    }
  }

  lemma {:induction false} BatchReadsBack(points: seq<Point>)
    requires AllFit(points)
    ensures Read(Print(points)) == Some(RecordsOf(points))
    decreases |points|
  {
    hide Print, PointText, ReadLine, RecordFits, Fits, LineText;
    if points == [] {
      PrintNothing();
    } else {
      var p := points[0];
      PrintHead(points);
      PointFits(p);
      LineReadsBack(RecordOf(p), Print(points[1..]));
      RecordIsTitled(RecordOf(p));
      LineStarts(RecordOf(p), Print(points[1..]));
      PointTextIs(p);
      BatchReadsBack(points[1..]);
      assert RecordsOf(points) == [RecordOf(p)] + RecordsOf(points[1..]);
    }
  }

  lemma RecordIsTitled(r: Record)
    requires RecordFits(r)
    ensures Titled(r.measurement)
  {
  }

  lemma PrintNothing()
    ensures Print([]) == ""
  {
  }

  lemma PointTextIs(p: Point)
    ensures PointText(p) ==
              LineText(RecordOf(p).measurement, RecordOf(p).tags, RecordOf(p).fields, RecordOf(p).timestamp)
  {
  }

  // ---- what the reader can return ---------------------------------------------------------------------------------

  lemma {:induction false} PartIsOneLine(s: string)
    ensures OneLine(ReadPart(s).value)
    ensures At(ReadPart(s).value, '#') ==> At(s, '#')
    decreases |s|
  {
    if s == "" || Ends(s[0]) {
    } else if s[0] == '\\' && |s| > 1 && Protects(s[1]) {
      PartIsOneLine(s[2..]);
    } else {
      PartIsOneLine(s[1..]);
    }
  }

  lemma {:induction false} TagsAreFit(s: string)
    ensures ReadTags(s).Some? ==> TagsFit(ReadTags(s).value.value)
    decreases |s|
  {
    hide ReadPart, OneLine;
    if At(s, ',') {
      var key := ReadPart(s[1..]);
      PartIsOneLine(s[1..]);
      if At(key.rest, '=') {
        PartIsOneLine(key.rest[1..]);
        TagsAreFit(ReadPart(key.rest[1..]).rest);
      }
    }
  }

  lemma ValueIsFinite(s: string)
    ensures ReadValue(s).Some? ==> Finite(ReadValue(s).value.value)
  {
    hide ReadQuoted, ReadToken, ReadInt, IsNumber;
  }

  lemma {:induction false} FieldsAreFit(s: string)
    ensures ReadFields(s).Some? ==> ReadFields(s).value.value != [] && FieldsFit(ReadFields(s).value.value)
    decreases |s|
  {
    hide ReadPart, OneLine, ReadValue, Finite;
    var key := ReadPart(s);
    PartIsOneLine(s);
    if At(key.rest, '=') {
      var value := ReadValue(key.rest[1..]);
      ValueIsFinite(key.rest[1..]);
      if value.Some? && At(value.value.rest, ',') {
        FieldsAreFit(value.value.rest[1..]);
      }
    }
  }

  lemma {:induction false} RecordsFit(s: string)
    ensures Read(s).Some? ==> forall i | 0 <= i < |Read(s).value| :: RecordFits(Read(s).value[i])
    decreases |s|
  {
    hide ReadLine, RecordFits, AfterLine;
    if s == "" {
    } else if s[0] == '\n' || s[0] == '#' {
      RecordsFit(AfterLine(s));
    } else if ReadLine(s).Some? {
      LineFits(s);
      RecordsFit(ReadLine(s).value.rest);
    }
  }

  lemma LineFits(s: string)
    requires ReadLine(s).Some? && !At(s, '#')
    ensures RecordFits(ReadLine(s).value.value)
  {
    hide ReadPart, ReadTags, ReadFields, ReadStamp, OneLine, TagsFit, FieldsFit;
    var measurement := ReadPart(s);
    PartIsOneLine(s);
    var tags := ReadTags(measurement.rest);
    TagsAreFit(measurement.rest);
    FieldsAreFit(tags.value.rest[1..]);
  }

  // ---- the theorems ----------------------------------------------------------------------------------------------

  /** A batch reads back exactly when every point has a field, no unquoted part is empty or holds a
      newline, no measurement starts with `#` and no number is infinite; then measurements, sorted tags,
      typed fields and timestamps all come back. */
  lemma RoundTripIff(points: seq<Point>)
    ensures Read(Print(points)) == Some(RecordsOf(points)) <==> AllFit(points)
  {
    hide Read, Print, RecordFits, Fits, RecordOf;
    if AllFit(points) {
      BatchReadsBack(points);
    }
    if Read(Print(points)) == Some(RecordsOf(points)) {
      RecordsFit(Print(points));
      forall i | 0 <= i < |points|
        ensures Fits(points[i])
      {
        assert RecordsOf(points)[i] == RecordOf(points[i]);
        PointFits(points[i]);
      }
    }
  }

  /** Different batches are sent as different texts. */
  lemma PrintIsInjective(a: seq<Point>, b: seq<Point>)
    requires AllFit(a) && AllFit(b) && Print(a) == Print(b)
    ensures a == b
  {
    hide Read, Print, Fits, Listing;
    BatchReadsBack(a);
    BatchReadsBack(b);
    assert |a| == |RecordsOf(a)| == |RecordsOf(b)| == |b|;
    forall i | 0 <= i < |a|
      ensures a[i] == b[i]
    {
      assert RecordOf(a[i]) == RecordsOf(a)[i] == RecordsOf(b)[i] == RecordOf(b[i]);
      ListingIsInjective(a[i].tags, b[i].tags);
      ListingIsInjective(a[i].fields, b[i].fields);
    }
  }

  /** A newline in a measurement is printed as it is and splits the point's line in two. */
  lemma NewlineBreaksTheLine()
    ensures var p := Point("a\nb", map[], map["f" := Int(1)], None);
            !AllFit([p]) && Read(Print([p])) != Some(RecordsOf([p]))
  {
    var p := Point("a\nb", map[], map["f" := Int(1)], None);
    assert p.measurement[1] == '\n';
    assert !Fits([p][0]);
    RoundTripIff([p]);
  }

  lemma {:induction false} SkipsLine(line: string, rest: string)
    requires OneLine(line)
    ensures AfterLine(line + "\n" + rest) == rest
    decreases |line|
  {
    var s := line + "\n" + rest;
    if line == "" {
      assert s[1..] == rest;
    } else {
      SkipsLine(line[1..], rest);
      assert s[1..] == line[1..] + "\n" + rest && s[0] == line[0];
    }
  }

  /** A line that starts with `#` is lost without an error: as a batch it reads as nothing at all. */
  lemma CommentIsLost(line: string)
    requires OneLine(line) && At(line, '#')
    ensures Read(line + "\n") == Some([])
  {
    SkipsLine(line, "");
    assert line + "\n" + "" == line + "\n";
    hide ReadLine, AfterLine;
    assert Read("") == Some([]);
  }

  /** And a measurement that starts with `#` makes its point such a line. */
  lemma HashMakesAComment(p: Point)
    requires At(p.measurement, '#')
    ensures At(Print([p]), '#') && !AllFit([p]) && Read(Print([p])) != Some(RecordsOf([p]))
  {
    assert !Fits([p][0]);
    RoundTripIff([p]);
    PrintOne(p);
    hide Listing, TagText, FieldText, StampText;
    assert Escape(p.measurement)[0] == '#';
  }
}
