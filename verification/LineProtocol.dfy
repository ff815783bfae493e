/** The InfluxDB line-protocol printer: escaping, and one line per point with its tags and fields in key
    order. */
module LineProtocol {
  import opened Basics
  import opened DecimalText
  import opened SortedItems

  /** What printing a finite 64-bit float gives: a number without exponent. */
  predicate IsNumber(s: string) {
    s != "" && forall i | 0 <= i < |s| :: IsDigit(s[i]) || s[i] == '.' || s[i] == '-'
  }

  /** What printing any 64-bit float gives. */
  predicate IsFloatText(s: string) {
    IsNumber(s) || s == "NaN" || s == "inf" || s == "-inf"
  }

  type FloatText = s: string | IsFloatText(s) witness "0"

  datatype Field = Float(text: FloatText) | Int(int) | Str(string) | Bool(bool)

  datatype Point = Point(measurement: string, tags: map<string, string>, fields: map<string, Field>,
      timestamp: Option<int>)

  // ---- escaping ---------------------------------------------------------------------------------------------

  predicate Special(c: char) {
    c == '\\' || c == ',' || c == ' ' || c == '='
  }

  function EscapeChar(c: char): string {
    if Special(c) then ['\\', c] else [c]
  }

  function Escape(s: string): string {
    if s == "" then "" else EscapeChar(s[0]) + Escape(s[1..])
  }

  predicate QuotedSpecial(c: char) {
    c == '\\' || c == '"'
  }

  function EscapeQuotedChar(c: char): string {
    if QuotedSpecial(c) then ['\\', c] else [c]
  }

  function EscapeQuoted(s: string): string {
    if s == "" then "" else EscapeQuotedChar(s[0]) + EscapeQuoted(s[1..])
  }

  lemma {:induction false} EscapeSnoc(s: string, c: char)
    ensures Escape(s + [c]) == Escape(s) + EscapeChar(c)
    decreases |s|
  {
    hide EscapeChar;
    if s == "" {
      assert s + [c] == [c] && [c][1..] == "";
      assert Escape([c]) == EscapeChar(c) + "";
    } else {
      EscapeSnoc(s[1..], c);
      assert (s + [c])[1..] == s[1..] + [c];
    }
  }

  lemma {:induction false} EscapeQuotedSnoc(s: string, c: char)
    ensures EscapeQuoted(s + [c]) == EscapeQuoted(s) + EscapeQuotedChar(c)
    decreases |s|
  {
    hide EscapeQuotedChar;
    if s == "" {
      assert s + [c] == [c] && [c][1..] == "";
      assert EscapeQuoted([c]) == EscapeQuotedChar(c) + "";
    } else {
      EscapeQuotedSnoc(s[1..], c);
      assert (s + [c])[1..] == s[1..] + [c];
    }
  }

  /** `escape_line_part`. */
  method EscapeLinePart(s: string) returns (out: string)
    ensures out == Escape(s)
  {
    hide Escape;
    out := "";
    assert Escape("") == "" by {
      EscapeNothing();
    }
    assert s[..0] == "";
    for i := 0 to |s|
      invariant out == Escape(s[..i])
    {
      EscapeSnoc(s[..i], s[i]);
      assert s[..i + 1] == s[..i] + [s[i]];
      if Special(s[i]) {
        out := out + ['\\'];
        out := out + [s[i]];
      } else {
        out := out + [s[i]];
      }
    }
    assert s[..|s|] == s;
  }

  /** `escape_field_string`. */
  method EscapeFieldString(s: string) returns (out: string)
    ensures out == EscapeQuoted(s)
  {
    hide EscapeQuoted;
    out := "";
    assert EscapeQuoted("") == "" by {
      EscapeNothing();
    }
    assert s[..0] == "";
    for i := 0 to |s|
      invariant out == EscapeQuoted(s[..i])
    {
      EscapeQuotedSnoc(s[..i], s[i]);
      assert s[..i + 1] == s[..i] + [s[i]];
      if QuotedSpecial(s[i]) {
        out := out + ['\\'];
        out := out + [s[i]];
      } else {
        out := out + [s[i]];
      }
    }
    assert s[..|s|] == s;
  }

  lemma EscapeNothing()
    ensures Escape("") == "" && EscapeQuoted("") == ""
  {
  }

  // ---- a line -----------------------------------------------------------------------------------------------

  function TagText(tags: Items<string>): string {
    if tags == [] then "" else "," + Escape(tags[0].0) + "=" + Escape(tags[0].1) + TagText(tags[1..])
  }

  function ValueText(v: Field): string {
    match v
    case Float(text) => text
    case Int(i) => PrintInt(i) + "i"
    case Str(s) => "\"" + EscapeQuoted(s) + "\""
    case Bool(b) => if b then "true" else "false"
  }

  function PairText(field: (string, Field)): string {
    Escape(field.0) + "=" + ValueText(field.1)
  }

  function FieldText(fields: Items<Field>): string {
    if fields == [] then ""
    else if |fields| == 1 then PairText(fields[0])
    else PairText(fields[0]) + "," + FieldText(fields[1..])
  }

  function StampText(timestamp: Option<int>): string {
    if timestamp.None? then "" else " " + PrintInt(timestamp.value)
  }

  function LineText(measurement: string, tags: Items<string>, fields: Items<Field>, timestamp: Option<int>): string {
    Escape(measurement) + TagText(tags) + " " + FieldText(fields) + StampText(timestamp) + "\n"
  }

  ghost function PointText(p: Point): string {
    LineText(p.measurement, Listing(p.tags), Listing(p.fields), p.timestamp)
  }

  ghost function Print(points: seq<Point>): string {
    if points == [] then "" else Print(points[..|points| - 1]) + PointText(points[|points| - 1])
  }

  /** In which order the two hash maps of a point happen to be iterated. */
  datatype Walk = Walk(tags: Items<string>, fields: Items<Field>)

  /** The text that `write` sends.  It is a function of the points alone: the iteration orders of their
      hash maps leave no trace in it. */
  method Write(points: seq<Point>, walks: seq<Walk>) returns (lines: string)
    requires |walks| == |points|
    requires forall i | 0 <= i < |points| ::
               Iterates(walks[i].tags, points[i].tags) && Iterates(walks[i].fields, points[i].fields)
    ensures lines == Print(points)
  {
    hide Iterates, Listing, Escape, TagText, FieldText, StampText, Collect;
    lines := "";
    for i := 0 to |points|
      invariant lines == Print(points[..i])
    {
      var p := points[i];
      CollectIsListing(walks[i].tags, p.tags);
      CollectIsListing(walks[i].fields, p.fields);
      var tags := TagText(Collect(walks[i].tags));
      var fields := FieldText(Collect(walks[i].fields));
      var measurement := EscapeLinePart(p.measurement);
      var line := measurement + tags + " " + fields;
      if p.timestamp.Some? {
        line := line + (" " + PrintInt(p.timestamp.value));
      }
      line := line + "\n";
      lines := lines + line;
      LineIs(p, line, measurement, tags, fields);
      assert points[..i + 1][..i] == points[..i] && points[..i + 1][i] == p;
    }
    assert points[..|points|] == points;
  }

  lemma LineIs(p: Point, line: string, measurement: string, tags: string, fields: string)
    requires measurement == Escape(p.measurement)
    requires tags == TagText(Listing(p.tags)) && fields == FieldText(Listing(p.fields))
    requires var stamp := if p.timestamp.Some? then " " + PrintInt(p.timestamp.value) else "";
             line == measurement + tags + " " + fields + stamp + "\n"
    ensures line == PointText(p)
  {
    hide Listing, Escape, TagText, FieldText, PrintInt;
  }
}
