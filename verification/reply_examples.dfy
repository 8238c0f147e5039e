/** Worked replies for the bonnet report parser. Each example text is a
    parameter equal to its literal, and the facts about it come from lemmas
    over arbitrary texts, so the verifier never evaluates the parser on
    constants. */
module ReplyExamples {
  import opened Text
  import opened ReplyParser

  lemma StripSpacedValue(s: string, t: string)
    requires s == " " + t && Trimmed(t)
    ensures Strip(s) == t
  {
    StripUnique(" ", t, []);
    assert " " + t + [] == s;
  }

  /** A line that repeats its label reads as both values with the two
      spaces that stood around the second label. */
  lemma RepeatedLabelValue(f: Field, x: string, y: string)
    requires ':' !in x && ':' !in y
    requires |x| > 0 && |y| > 0 && Trimmed(x) && Trimmed(y)
    ensures LabelValue(Label(f) + " " + x + " " + Label(f) + " " + y, f) == x + "  " + y
  {
    var L := Label(f);
    var ws := [[], " " + x + " ", " " + y];
    assert Interleave(ws[1..][1..], L) == " " + y;
    assert Interleave(ws[1..], L) == " " + x + " " + L + " " + y;
    assert Interleave(ws, L) == L + " " + x + " " + L + " " + y;
    assert Concat(ws[1..][1..][1..]) == [];
    assert Concat(ws[1..][1..]) == " " + y;
    assert Concat(ws) == " " + (x + "  " + y);
    LabelColonLast(f);
    forall i | 0 <= i < |ws| ensures !Occurs(ws[i], L) {
      AbsentCharNoOccurrence(ws[i], L, ':');
    }
    LabelRemovedEverywhere(f, ws);
    StripSpacedValue(" " + (x + "  " + y), x + "  " + y);
  }

  lemma RedBlueLine(line: string, L: string, x: string, y: string)
    requires line == "COLOR: red COLOR: blue" && L == "COLOR:" && x == "red" && y == "blue"
    ensures line == L + " " + x + " " + L + " " + y && x + "  " + y == "red  blue"
  {
  }

  lemma CyanBlueLine(line: string, L: string, x: string, y: string)
    requires line == "COLOR: Cyan COLOR: blue" && L == "COLOR:" && x == "Cyan" && y == "blue"
    ensures line == L + " " + x + " " + L + " " + y && x + "  " + y == "Cyan  blue"
  {
  }

  /** `replace` removes the label wherever it appears on the line, not just
      in front: a repeated label leaves two spaces behind. */
  lemma RepeatedLabelIsRemovedEverywhere(line: string)
    requires line == "COLOR: red COLOR: blue"
    ensures LabelValue(line, CarColor) == "red  blue"
  {
    var x, y := "red", "blue";
    RedBlueLine(line, Label(CarColor), x, y);
    RepeatedLabelValue(CarColor, x, y);
  }

  /** The same when the text between the labels holds the label's first
      letter. */
  lemma RepeatedLabelAfterCapital(line: string)
    requires line == "COLOR: Cyan COLOR: blue"
    ensures LabelValue(line, CarColor) == "Cyan  blue"
  {
    var x, y := "Cyan", "blue";
    CyanBlueLine(line, Label(CarColor), x, y);
    RepeatedLabelValue(CarColor, x, y);
  }

  /** A labelled line whose value holds no character that starts the label
      reads as the value. */
  lemma PlainValue(f: Field, line: string, value: string)
    requires line == Label(f) + " " + value && Trimmed(value)
    requires Label(f)[0] !in value
    ensures LabelValue(line, f) == value
  {
    var L := Label(f);
    var v := " " + value;
    assert line == L + v;
    LabelColonLast(f);
    RemoveAllAfterPattern(L, v);
    RemoveAllSkips(v, [], L);
    assert v + [] == v;
    StripSpacedValue(RemoveAll(line, L), value);
  }

  lemma TwoItems(s: string, x: string, y: string)
    requires s == x + " | " + y
    requires |x| > 0 && |y| > 0 && Trimmed(x) && Trimmed(y) && '|' !in x && '|' !in y
    ensures SplitItems(s) == [x, y]
  {
    var parts := [x + " ", " " + y];
    assert Join(parts[1..], '|') == " " + y;
    assert x + " " + "|" + (" " + y) == x + " | " + y;
    assert Join(parts, '|') == s;
    SplitJoin(parts, '|');
    StripUnique([], x, " ");
    assert [] + x + " " == parts[0];
    StripUnique(" ", y, []);
    assert " " + y + [] == parts[1];
    assert KeepNonBlank(parts[2..]) == [];
    assert KeepNonBlank(parts[1..]) == [y] + KeepNonBlank(parts[2..]);
    assert KeepNonBlank(parts) == [x] + KeepNonBlank(parts[1..]);
  }

  lemma OneItem(s: string)
    requires |s| > 0 && Trimmed(s) && '|' !in s
    ensures SplitItems(s) == [s]
  {
    SplitJoin([s], '|');
    KeepSingle(s);
  }

  lemma SixLines(a: string, b: string, c: string, d: string, e: string, f: string)
    requires '\n' !in a && '\n' !in b && '\n' !in c && '\n' !in d && '\n' !in e && '\n' !in f
    ensures Split(a + "\n" + b + "\n" + c + "\n" + d + "\n" + e + "\n" + f, '\n') == [a, b, c, d, e, f]
  {
    SplitAfter(a, [], '\n');
    assert a + [] == a;
    SplitLastPiece(a, b, '\n');
    SplitLastPiece(a + "\n" + b, c, '\n');
    SplitLastPiece(a + "\n" + b + "\n" + c, d, '\n');
    SplitLastPiece(a + "\n" + b + "\n" + c + "\n" + d, e, '\n');
    SplitLastPiece(a + "\n" + b + "\n" + c + "\n" + d + "\n" + e, f, '\n');
  }

  lemma ColorLine(line: string)
    requires line == "COLOR: Red"
    ensures Extract(CarColor, line) == Scalar("Red")
  {
    PlainValue(CarColor, line, "Red");
  }

  lemma ConditionLine(line: string)
    requires line == "CONDITION: Good"
    ensures Extract(Condition, line) == Scalar("Good")
  {
    PlainValue(Condition, line, "Good");
  }

  lemma WashLine(line: string)
    requires line == "RECOMMENDATION: Wash"
    ensures Extract(WashOrRepaint, line) == Scalar("Wash")
  {
    PlainValue(WashOrRepaint, line, "Wash");
  }

  lemma IssuesValue(line: string)
    requires line == "ISSUES: scratch | dent"
    ensures LabelValue(line, Issues) == "scratch | dent"
  {
    PlainValue(Issues, line, "scratch | dent");
  }

  lemma IssuesItems(v: string)
    requires v == "scratch | dent"
    ensures SplitItems(v) == ["scratch", "dent"]
  {
    TwoItems(v, "scratch", "dent");
  }

  lemma IssuesLine(line: string)
    requires line == "ISSUES: scratch | dent"
    ensures Extract(Issues, line) == Items(["scratch", "dent"])
  {
    IssuesValue(line);
    IssuesItems(LabelValue(line, Issues));
  }

  lemma RecommendationsValue(line: string)
    requires line == "RECOMMENDATIONS: polish"
    ensures LabelValue(line, Recommendations) == "polish"
  {
    PlainValue(Recommendations, line, "polish");
  }

  lemma RecommendationsItems(v: string)
    requires v == "polish"
    ensures SplitItems(v) == ["polish"]
  {
    OneItem(v);
  }

  lemma RecommendationsLine(line: string)
    requires line == "RECOMMENDATIONS: polish"
    ensures Extract(Recommendations, line) == Items(["polish"])
  {
    RecommendationsValue(line);
    RecommendationsItems(LabelValue(line, Recommendations));
  }

  lemma ReportLine(line: string)
    requires line == "DETAILED_REPORT: fine"
    ensures Extract(DetailedReport, line) == Scalar("fine")
  {
    PlainValue(DetailedReport, line, "fine");
  }

  lemma ExampleSplit(reply: string)
    requires reply == "COLOR: Red" + "\n" + "CONDITION: Good" + "\n" + "RECOMMENDATION: Wash" + "\n"
      + "ISSUES: scratch | dent" + "\n" + "RECOMMENDATIONS: polish" + "\n" + "DETAILED_REPORT: fine"
    ensures Split(reply, '\n') == ["COLOR: Red", "CONDITION: Good", "RECOMMENDATION: Wash",
      "ISSUES: scratch | dent", "RECOMMENDATIONS: polish", "DETAILED_REPORT: fine"]
  {
    var a, b, c := "COLOR: Red", "CONDITION: Good", "RECOMMENDATION: Wash";
    var d, e, f := "ISSUES: scratch | dent", "RECOMMENDATIONS: polish", "DETAILED_REPORT: fine";
    SixLines(a, b, c, d, e, f);
  }

  lemma ExampleLayout(lines: seq<string>)
    requires lines == ["COLOR: Red", "CONDITION: Good", "RECOMMENDATION: Wash",
      "ISSUES: scratch | dent", "RECOMMENDATIONS: polish", "DETAILED_REPORT: fine"]
    ensures OneLinePerField(lines)
  {
  }

  lemma ExampleHeader(reply: string)
    requires reply == "COLOR: Red" + "\n" + "CONDITION: Good" + "\n" + "RECOMMENDATION: Wash" + "\n"
      + "ISSUES: scratch | dent" + "\n" + "RECOMMENDATIONS: polish" + "\n" + "DETAILED_REPORT: fine"
    ensures Get(Parse(reply), CarColor) == Scalar("Red")
    ensures Get(Parse(reply), Condition) == Scalar("Good")
  {
    var lines := Split(reply, '\n');
    ExampleSplit(reply);
    ExampleLayout(lines);
    FieldFromItsLine(reply, CarColor);
    FieldFromItsLine(reply, Condition);
    ColorLine(lines[0]);
    ConditionLine(lines[1]);
  }

  lemma ExampleVerdict(reply: string)
    requires reply == "COLOR: Red" + "\n" + "CONDITION: Good" + "\n" + "RECOMMENDATION: Wash" + "\n"
      + "ISSUES: scratch | dent" + "\n" + "RECOMMENDATIONS: polish" + "\n" + "DETAILED_REPORT: fine"
    ensures Get(Parse(reply), WashOrRepaint) == Scalar("Wash")
    ensures Get(Parse(reply), DetailedReport) == Scalar("fine")
  {
    var lines := Split(reply, '\n');
    ExampleSplit(reply);
    ExampleLayout(lines);
    FieldFromItsLine(reply, WashOrRepaint);
    FieldFromItsLine(reply, DetailedReport);
    WashLine(lines[2]);
    ReportLine(lines[5]);
  }

  lemma ExampleLists(reply: string)
    requires reply == "COLOR: Red" + "\n" + "CONDITION: Good" + "\n" + "RECOMMENDATION: Wash" + "\n"
      + "ISSUES: scratch | dent" + "\n" + "RECOMMENDATIONS: polish" + "\n" + "DETAILED_REPORT: fine"
    ensures Get(Parse(reply), Issues) == Items(["scratch", "dent"])
    ensures Get(Parse(reply), Recommendations) == Items(["polish"])
  {
    var lines := Split(reply, '\n');
    ExampleSplit(reply);
    ExampleLayout(lines);
    FieldFromItsLine(reply, Issues);
    FieldFromItsLine(reply, Recommendations);
    IssuesLine(lines[3]);
    RecommendationsLine(lines[4]);
  }

  /** The reply from the format's own example, line by line. */
  lemma FormatExample(reply: string)
    requires reply == "COLOR: Red" + "\n" + "CONDITION: Good" + "\n" + "RECOMMENDATION: Wash" + "\n"
      + "ISSUES: scratch | dent" + "\n" + "RECOMMENDATIONS: polish" + "\n" + "DETAILED_REPORT: fine"
    ensures Parse(reply) == Report("Red", "Good", "Wash", ["scratch", "dent"], ["polish"], "fine")
  {
    ExampleHeader(reply);
    ExampleVerdict(reply);
    ExampleLists(reply);
    ReportExtensional(Parse(reply), Report("Red", "Good", "Wash", ["scratch", "dent"], ["polish"], "fine"));
  }
}
