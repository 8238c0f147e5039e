/** The line-oriented reader of the vision model's bonnet report
    (`parse_gpt4_response` in backend/server.py). */
module ReplyParser {
  import opened Results
  import opened Text

  /** The six fields the reply is asked to carry, one per labelled line. */
  datatype Field = CarColor | Condition | WashOrRepaint | Issues | Recommendations | DetailedReport

  /** The label that introduces a field, matched case-sensitively at the
      very start of a line. */
  function Label(f: Field): string {
    match f
    case CarColor => "COLOR:"
    case Condition => "CONDITION:"
    case WashOrRepaint => "RECOMMENDATION:"
    case Issues => "ISSUES:"
    case Recommendations => "RECOMMENDATIONS:"
    case DetailedReport => "DETAILED_REPORT:"
  }

  predicate IsList(f: Field) {
    f == Issues || f == Recommendations
  }

  /** The parsed reply; list fields keep the reply's order. */
  datatype Report = Report(
    carColor: string,
    condition: string,
    washOrRepaint: string,
    issues: seq<string>,
    recommendations: seq<string>,
    detailedReport: string)

  /** A field's content, whichever of the two shapes it has. */
  datatype Value = Scalar(text: string) | Items(items: seq<string>)

  function Get(r: Report, f: Field): (v: Value)
    ensures v.Items? <==> IsList(f)
  {
    match f
    case CarColor => Scalar(r.carColor)
    case Condition => Scalar(r.condition)
    case WashOrRepaint => Scalar(r.washOrRepaint)
    case Issues => Items(r.issues)
    case Recommendations => Items(r.recommendations)
    case DetailedReport => Scalar(r.detailedReport)
  }

  /** Two reports agreeing on every field are the same report. */
  lemma ReportExtensional(r1: Report, r2: Report)
    requires forall f :: Get(r1, f) == Get(r2, f)
    ensures r1 == r2
  {
    assert Get(r1, CarColor) == Get(r2, CarColor);
    assert Get(r1, Condition) == Get(r2, Condition);
    assert Get(r1, WashOrRepaint) == Get(r2, WashOrRepaint);
    assert Get(r1, Issues) == Get(r2, Issues);
    assert Get(r1, Recommendations) == Get(r2, Recommendations);
    assert Get(r1, DetailedReport) == Get(r2, DetailedReport);
  }

  /** What each field holds before any line has been read: "Unknown" for
      the three short answers, no items, and the whole reply as the report. */
  function Initial(response: string): Report {
    Report("Unknown", "Unknown", "Unknown", [], [], response)
  }

  /** The record the source's exception handler would return. On a text
      input the parser raises nothing, so `Parse` never takes this path. */
  function Fallback(response: string): Report {
    Report("Unknown", "Unknown", "Unknown", ["Error parsing analysis"], ["Please try again"], response)
  }

  /** List items as the parser produces them: non-blank, trimmed, and free
      of the `|` delimiter. */
  predicate WellFormedItems(items: seq<string>) {
    forall i :: 0 <= i < |items| ==> |items[i]| > 0 && Trimmed(items[i]) && '|' !in items[i]
  }

  /** Each piece with its surrounding whitespace removed, in order, leaving
      out the pieces that were only whitespace. */
  function KeepNonBlank(pieces: seq<string>): (items: seq<string>)
    requires forall i :: 0 <= i < |pieces| ==> '|' !in pieces[i]
    ensures WellFormedItems(items)
    ensures |items| <= |pieces|
  {
    if |pieces| == 0 then []
    else
      var t := Strip(pieces[0]);
      StripKeepsOut(pieces[0], '|');
      (if |t| == 0 then [] else [t]) + KeepNonBlank(pieces[1..])
  }

  /** The list reading of a value: split on `|`, trim, drop blanks. */
  function SplitItems(s: string): (items: seq<string>)
    ensures WellFormedItems(items)
  {
    KeepNonBlank(Split(s, '|'))
  }

  /** The text a labelled line contributes: the line with every occurrence
      of the label removed (`line.replace(label, '')`), then stripped. */
  function LabelValue(line: string, f: Field): string {
    Strip(RemoveAll(line, Label(f)))
  }

  /** What a line carrying `f`'s label sets `f` to. */
  function Extract(f: Field, line: string): (v: Value)
    ensures v.Items? <==> IsList(f)
  {
    if IsList(f) then Items(SplitItems(LabelValue(line, f))) else Scalar(LabelValue(line, f))
  }

  /** The field whose label begins the line, checked in the source's order. */
  function LabelOf(line: string): (r: Option<Field>)
    ensures r.Some? ==> StartsWith(line, Label(r.value))
    ensures r.None? ==> forall f :: !StartsWith(line, Label(f))
  {
    if StartsWith(line, Label(CarColor)) then Some(CarColor)
    else if StartsWith(line, Label(Condition)) then Some(Condition)
    else if StartsWith(line, Label(WashOrRepaint)) then Some(WashOrRepaint)
    else if StartsWith(line, Label(Issues)) then Some(Issues)
    else if StartsWith(line, Label(Recommendations)) then Some(Recommendations)
    else if StartsWith(line, Label(DetailedReport)) then Some(DetailedReport)
    else None
  }

  /** Every label ends with its only colon. */
  lemma LabelColonLast(f: Field)
    ensures |Label(f)| > 0 && Label(f)[|Label(f)| - 1] == ':'
    ensures forall k :: 0 <= k < |Label(f)| - 1 ==> Label(f)[k] != ':'
  {
  }

  /** No label is a prefix of another, so no line carries two labels. */
  lemma LabelsPrefixFree(line: string, f: Field, g: Field)
    requires StartsWith(line, Label(f)) && StartsWith(line, Label(g))
    ensures f == g
  {
    if |Label(f)| <= |Label(g)| {
      PrefixOfPrefix(line, Label(f), Label(g));
      LabelNotPrefix(f, g);
    } else {
      PrefixOfPrefix(line, Label(g), Label(f));
      LabelNotPrefix(g, f);
    }
  }

  /** Of two prefixes of one text, the shorter is a prefix of the longer. */
  lemma PrefixOfPrefix(line: string, p: string, q: string)
    requires StartsWith(line, p) && StartsWith(line, q) && |p| <= |q|
    ensures StartsWith(q, p)
  {
    assert q[..|p|] == line[..|q|][..|p|] == line[..|p|];
  }

  /** No label begins another label. */
  lemma LabelNotPrefix(f: Field, g: Field)
    ensures StartsWith(Label(g), Label(f)) ==> f == g
  {
    if StartsWith(Label(g), Label(f)) {
      var lf, lg := Label(f), Label(g);
      LabelColonLast(f);
      LabelColonLast(g);
      assert lg[|lf| - 1] == lf[|lf| - 1] == ':';
      assert lf == lg;
      assert lf[0] == lg[0] && |lf| == |lg|;
    }
  }

  /** A line is attributed to a field exactly when it starts with that
      field's label; the order of the tests does not matter. */
  lemma LabelOfExact(line: string, f: Field)
    ensures LabelOf(line) == Some(f) <==> StartsWith(line, Label(f))
  {
    if StartsWith(line, Label(f)) {
      LabelsPrefixFree(line, LabelOf(line).value, f);
    }
  }

  /** Every label starts with an upper-case letter, so a line that starts
      with whitespace or a lower-case letter carries no label. */
  lemma UnlabelledLines(line: string)
    requires |line| > 0 && (IsSpace(line[0]) || 'a' <= line[0] <= 'z')
    ensures LabelOf(line) == None
  {
  }

  /** The report with field `f` replaced by `v` and every other field kept. */
  function Set(r: Report, f: Field, v: Value): (r': Report)
    requires v.Items? <==> IsList(f)
    ensures Get(r', f) == v
    ensures forall g :: g != f ==> Get(r', g) == Get(r, g)
  {
    match f
    case CarColor => r.(carColor := v.text)
    case Condition => r.(condition := v.text)
    case WashOrRepaint => r.(washOrRepaint := v.text)
    case Issues => r.(issues := v.items)
    case Recommendations => r.(recommendations := v.items)
    case DetailedReport => r.(detailedReport := v.text)
  }

  /** Reading one line: a labelled line overwrites its field and nothing
      else; any other line changes nothing. */
  function Step(acc: Report, line: string): (r: Report)
    ensures LabelOf(line).None? ==> r == acc
    ensures LabelOf(line).Some? ==>
      && Get(r, LabelOf(line).value) == Extract(LabelOf(line).value, line)
      && forall g :: g != LabelOf(line).value ==> Get(r, g) == Get(acc, g)
  {
    match LabelOf(line)
    case None => acc
    case Some(f) => Set(acc, f, Extract(f, line))
  }

  /** The loop over the lines, in order. */
  function ReadLines(acc: Report, lines: seq<string>): (r: Report)
    ensures WellFormedItems(acc.issues) ==> WellFormedItems(r.issues)
    ensures WellFormedItems(acc.recommendations) ==> WellFormedItems(r.recommendations)
    decreases |lines|
  {
    if |lines| == 0 then acc
    else Step(ReadLines(acc, lines[..|lines| - 1]), lines[|lines| - 1])
  }

  /** `parse_gpt4_response`: total on every text. */
  function Parse(response: string): (r: Report)
    ensures WellFormedItems(r.issues) && WellFormedItems(r.recommendations)
  {
    ReadLines(Initial(response), Split(response, '\n'))
  }

  predicate LabelledAt(lines: seq<string>, i: int, f: Field)
    requires 0 <= i < |lines|
  {
    StartsWith(lines[i], Label(f))
  }

  /** A line without `f`'s label leaves `f` as it was. */
  lemma StepKeeps(acc: Report, line: string, f: Field)
    requires !StartsWith(line, Label(f))
    ensures Get(Step(acc, line), f) == Get(acc, f)
  {
    if LabelOf(line).Some? {
      LabelOfExact(line, f);
    }
  }

  /** A line with `f`'s label sets `f` to the line's value. */
  lemma StepSets(acc: Report, line: string, f: Field)
    requires StartsWith(line, Label(f))
    ensures Get(Step(acc, line), f) == Extract(f, line)
  {
    LabelOfExact(line, f);
  }

  /** A field keeps its value through lines none of which carries its label. */
  lemma {:induction false} ReadLinesKeeps(acc: Report, lines: seq<string>, f: Field)
    requires forall i :: 0 <= i < |lines| ==> !LabelledAt(lines, i, f)
    ensures Get(ReadLines(acc, lines), f) == Get(acc, f)
    decreases |lines|
  {
    if |lines| > 0 {
      var n := |lines| - 1;
      assert !LabelledAt(lines, n, f);
      StepKeeps(ReadLines(acc, lines[..n]), lines[n], f);
      forall i | 0 <= i < n ensures !LabelledAt(lines[..n], i, f) {
        assert lines[..n][i] == lines[i] && !LabelledAt(lines, i, f);
      }
      ReadLinesKeeps(acc, lines[..n], f);
    }
  }

  /** A field takes its value from the last line carrying its label. */
  lemma {:induction false} ReadLinesLastWins(acc: Report, lines: seq<string>, f: Field, i: int)
    requires 0 <= i < |lines| && LabelledAt(lines, i, f)
    requires forall j :: i < j < |lines| ==> !LabelledAt(lines, j, f)
    ensures Get(ReadLines(acc, lines), f) == Extract(f, lines[i])
    decreases |lines|
  {
    var n := |lines| - 1;
    assert ReadLines(acc, lines) == Step(ReadLines(acc, lines[..n]), lines[n]);
    if i == n {
      StepSets(ReadLines(acc, lines[..n]), lines[n], f);
    } else {
      assert !LabelledAt(lines, n, f);
      StepKeeps(ReadLines(acc, lines[..n]), lines[n], f);
      forall j | i < j < n ensures !LabelledAt(lines[..n], j, f) {
        assert lines[..n][j] == lines[j] && !LabelledAt(lines, j, f);
      }
      assert lines[..n][i] == lines[i];
      ReadLinesLastWins(acc, lines[..n], f, i);
    }
  }

  /** A field no line of the reply labels keeps its initial value. */
  lemma ParseUnlabelledField(response: string, f: Field)
    requires forall i :: 0 <= i < |Split(response, '\n')| ==> !LabelledAt(Split(response, '\n'), i, f)
    ensures Get(Parse(response), f) == Get(Initial(response), f)
  {
    ReadLinesKeeps(Initial(response), Split(response, '\n'), f);
  }

  /** A labelled field takes its value from the last line of the reply
      that carries its label. */
  lemma ParseLastLabelledLine(response: string, f: Field, i: int)
    requires 0 <= i < |Split(response, '\n')| && LabelledAt(Split(response, '\n'), i, f)
    requires forall j :: i < j < |Split(response, '\n')| ==> !LabelledAt(Split(response, '\n'), j, f)
    ensures Get(Parse(response), f) == Extract(f, Split(response, '\n')[i])
  {
    ReadLinesLastWins(Initial(response), Split(response, '\n'), f, i);
  }

  /** A reply in which no line begins with a label parses to the defaults:
      "Unknown" three times, no items, and the whole reply as the report. */
  lemma NoLabelsGivesDefaults(response: string)
    requires forall line :: line in Split(response, '\n') ==> LabelOf(line).None?
    ensures Parse(response) == Report("Unknown", "Unknown", "Unknown", [], [], response)
  {
    var lines := Split(response, '\n');
    forall f ensures Get(Parse(response), f) == Get(Initial(response), f) {
      forall i | 0 <= i < |lines| ensures !LabelledAt(lines, i, f) {
        assert lines[i] in lines;
      }
      ParseUnlabelledField(response, f);
    }
    ReportExtensional(Parse(response), Initial(response));
  }

  /** Exactly one line carries the field's label. */
  predicate LabelledOnce(lines: seq<string>, f: Field) {
    exists i :: 0 <= i < |lines| && LabelledAt(lines, i, f)
      && forall j :: 0 <= j < |lines| && j != i ==> !LabelledAt(lines, j, f)
  }

  lemma RepeatedElement<T>(s: seq<T>, j: int, k: int)
    requires 0 <= j < k < |s| && s[j] == s[k]
    ensures multiset(s)[s[j]] >= 2
  {
    assert s == s[..j] + [s[j]] + s[j + 1..k] + [s[k]] + s[k + 1..];
  }

  lemma SingleElement<T>(s: seq<T>, i: int)
    requires 0 <= i < |s|
    requires forall m :: 0 <= m < |s| && m != i ==> s[m] != s[i]
    ensures multiset(s)[s[i]] == 1
  {
    assert s == s[..i] + [s[i]] + s[i + 1..];
    assert s[i] !in s[..i];
    assert s[i] !in s[i + 1..];
  }

  /** In a rearrangement of lines where one line carries `f`'s label, the
      same line is again the only one carrying it. */
  lemma LabelledOnceRearranged(l1: seq<string>, l2: seq<string>, f: Field, i: int) returns (k: int)
    requires multiset(l1) == multiset(l2)
    requires 0 <= i < |l1| && LabelledAt(l1, i, f)
    requires forall j :: 0 <= j < |l1| && j != i ==> !LabelledAt(l1, j, f)
    ensures 0 <= k < |l2| && l2[k] == l1[i]
    ensures forall j :: 0 <= j < |l2| && j != k ==> !LabelledAt(l2, j, f)
  {
    assert l1[i] in multiset(l2);
    k :| 0 <= k < |l2| && l2[k] == l1[i];
    forall m | 0 <= m < |l1| && m != i ensures l1[m] != l1[i] {
      assert !LabelledAt(l1, m, f);
    }
    SingleElement(l1, i);
    forall j | 0 <= j < |l2| && j != k ensures !LabelledAt(l2, j, f) {
      if LabelledAt(l2, j, f) {
        assert l2[j] in multiset(l1);
        var m :| 0 <= m < |l1| && l1[m] == l2[j];
        assert LabelledAt(l1, m, f);
        if j < k { RepeatedElement(l2, j, k); } else { RepeatedElement(l2, k, j); }
      }
    }
  }

  /** When every label appears on exactly one line, each field comes from
      its line whatever the order of the lines, so replies whose lines are
      rearrangements of one another parse alike. */
  lemma LineOrderIrrelevant(r1: string, r2: string)
    requires multiset(Split(r1, '\n')) == multiset(Split(r2, '\n'))
    requires forall f :: LabelledOnce(Split(r1, '\n'), f)
    ensures Parse(r1) == Parse(r2)
  {
    var l1, l2 := Split(r1, '\n'), Split(r2, '\n');
    forall f ensures Get(Parse(r1), f) == Get(Parse(r2), f) {
      assert LabelledOnce(l1, f);
      var i :| 0 <= i < |l1| && LabelledAt(l1, i, f)
        && forall j :: 0 <= j < |l1| && j != i ==> !LabelledAt(l1, j, f);
      var k := LabelledOnceRearranged(l1, l2, f, i);
      ReadLinesLastWins(Initial(r1), l1, f, i);
      ReadLinesLastWins(Initial(r2), l2, f, k);
    }
    ReportExtensional(Parse(r1), Parse(r2));
  }

  /** Lists are read from the pieces alone: stripping each piece first
      makes no difference. */
  lemma {:induction false} KeepNonBlankStripwise(ps: seq<string>, qs: seq<string>)
    requires |ps| == |qs|
    requires forall i :: 0 <= i < |ps| ==> '|' !in ps[i] && '|' !in qs[i]
    requires forall i :: 0 <= i < |ps| ==> Strip(ps[i]) == Strip(qs[i])
    ensures KeepNonBlank(ps) == KeepNonBlank(qs)
    decreases |ps|
  {
    if |ps| > 0 {
      KeepNonBlankStripwise(ps[1..], qs[1..]);
    }
  }

  lemma NoPipeInSpaces(a: string)
    requires AllSpace(a)
    ensures '|' !in a
  {
  }

  /** Whitespace-only text added before and after a value changes only the
      first and the last piece of its split. */
  lemma SplitSurrounded(a: string, t: string, b: string)
    requires '|' !in a && '|' !in b
    ensures var p, q := Split(a + t + b, '|'), Split(t, '|');
      && |p| == |q|
      && forall i :: 0 <= i < |q| ==>
           p[i] == (if i == 0 then a else []) + q[i] + (if i == |q| - 1 then b else [])
  {
    var q := Split(t, '|');
    var m := |q| - 1;
    SplitBefore(t, b, '|');
    var r := Split(t + b, '|');
    assert r == q[..m] + [q[m] + b];
    assert a + t + b == a + (t + b);
    SplitAfter(a, t + b, '|');
    var p := Split(a + t + b, '|');
    assert p == [a + r[0]] + r[1..];
    forall i | 0 <= i < |q|
      ensures p[i] == (if i == 0 then a else []) + q[i] + (if i == m then b else [])
    {
      if i == 0 && i == m {
        assert p[0] == a + (q[0] + b);
      } else if i == 0 {
        assert p[0] == a + q[0];
        assert q[0] + [] == q[0];
      } else if i == m {
        assert p[i] == r[i];
        assert [] + q[i] == q[i];
      } else {
        assert p[i] == r[i] == q[i];
        assert [] + q[i] + [] == q[i];
      }
    }
  }

  /** Splitting the stripped value gives the same list as splitting the
      value itself: the strip before the split is redundant. */
  lemma SplitItemsIgnoresStrip(s: string)
    ensures SplitItems(Strip(s)) == SplitItems(s)
  {
    var t := Strip(s);
    var a, b := StripFrame(s);
    NoPipeInSpaces(a);
    NoPipeInSpaces(b);
    SplitSurrounded(a, t, b);
    var p, q := Split(s, '|'), Split(t, '|');
    forall i | 0 <= i < |q| ensures Strip(p[i]) == Strip(q[i]) {
      var a' := if i == 0 then a else [];
      var b' := if i == |q| - 1 then b else [];
      StripAbsorbs(a', q[i], b');
    }
    KeepNonBlankStripwise(p, q);
  }

  /** Each item with a space on both sides, as the reply format shows them. */
  function Padded(items: seq<string>): (ps: seq<string>)
    ensures |ps| == |items|
  {
    seq(|items|, i requires 0 <= i < |items| => " " + items[i] + " ")
  }

  /** A list written the way the reply format asks: `a | b | c`. */
  function RenderItems(items: seq<string>): string {
    if |items| == 0 then [] else Join(Padded(items), '|')
  }

  lemma PaddedNoPipe(items: seq<string>)
    requires WellFormedItems(items)
    ensures forall i :: 0 <= i < |items| ==> '|' !in Padded(items)[i]
  {
    forall i | 0 <= i < |items| ensures '|' !in Padded(items)[i] {
      assert Padded(items)[i] == [' '] + items[i] + [' '];
    }
  }

  /** A single trimmed, non-blank, pipe-free piece is kept as it is. */
  lemma KeepSingle(t: string)
    requires |t| > 0 && Trimmed(t) && '|' !in t
    ensures KeepNonBlank([t]) == [t]
  {
    StripTrimmed(t);
    KeepNonBlankCons([t]);
    assert [t][1..] == [];
  }

  lemma KeepNonBlankCons(ps: seq<string>)
    requires |ps| > 0 && |Strip(ps[0])| > 0
    requires forall i :: 0 <= i < |ps| ==> '|' !in ps[i]
    ensures KeepNonBlank(ps) == [Strip(ps[0])] + KeepNonBlank(ps[1..])
  {
  }

  lemma StripPadding(x: string)
    requires Trimmed(x)
    ensures Strip(" " + x + " ") == x
  {
    StripUnique(" ", x, " ");
  }

  lemma PaddedHead(items: seq<string>)
    requires |items| > 0
    ensures Padded(items)[0] == " " + items[0] + " "
    ensures Padded(items)[1..] == Padded(items[1..])
  {
  }

  lemma {:induction false} KeepPadded(items: seq<string>)
    requires WellFormedItems(items)
    ensures forall i :: 0 <= i < |items| ==> '|' !in Padded(items)[i]
    ensures KeepNonBlank(Padded(items)) == items
    decreases |items|
  {
    PaddedNoPipe(items);
    if |items| > 0 {
      var ps := Padded(items);
      PaddedHead(items);
      StripPadding(items[0]);
      KeepPadded(items[1..]);
      KeepNonBlankCons(ps);
      assert items == [items[0]] + items[1..];
    }
  }

  /** Reading back a rendered list gives the list, for items as the parser
      produces them. */
  lemma ItemsRoundTrip(items: seq<string>)
    requires WellFormedItems(items)
    ensures SplitItems(RenderItems(items)) == items
  {
    KeepPadded(items);
    if |items| > 0 {
      SplitJoin(Padded(items), '|');
    } else {
      assert Split([], '|') == [[]];
      assert Strip([]) == [];
    }
  }

  /** The fields in the order the reply format lists them. */
  const Fields: seq<Field> := [CarColor, Condition, WashOrRepaint, Issues, Recommendations, DetailedReport]

  function Rank(f: Field): (k: nat)
    ensures k < |Fields| && Fields[k] == f
  {
    match f
    case CarColor => 0
    case Condition => 1
    case WashOrRepaint => 2
    case Issues => 3
    case Recommendations => 4
    case DetailedReport => 5
  }

  /** One line of a reply in the requested format. */
  function RenderLine(f: Field, r: Report): (line: string)
    ensures StartsWith(line, Label(f))
  {
    var v := Get(r, f);
    if v.Items? then Label(f) + RenderItems(v.items) else Label(f) + " " + v.text
  }

  /** A reply in the requested format: the six labelled lines in order. */
  function RenderReply(r: Report): string {
    Join(seq(|Fields|, k requires 0 <= k < |Fields| => RenderLine(Fields[k], r)), '\n')
  }

  /** The values a rendered reply can carry without being misread: single
      line and free of their own field's label; scalars trimmed, list items
      as the parser produces them. */
  predicate Renderable(r: Report) {
    forall f :: RenderableValue(f, Get(r, f))
  }

  predicate RenderableValue(f: Field, v: Value) {
    match v
    case Scalar(t) => Trimmed(t) && '\n' !in t && !Occurs(t, Label(f))
    case Items(xs) => WellFormedItems(xs) && forall i :: 0 <= i < |xs| ==> '\n' !in xs[i] && !Occurs(xs[i], Label(f))
  }

  lemma ScalarLineReadsBack(f: Field, t: string)
    requires !IsList(f)
    requires Trimmed(t) && !Occurs(t, Label(f))
    ensures Extract(f, Label(f) + " " + t) == Scalar(t)
  {
    var L := Label(f);
    LabelColonLast(f);
    assert L + " " + t == L + ([' '] + t);
    OccursAfterChar(' ', t, L);
    RemoveAllLeading(L, [' '] + t);
    StripUnique([' '], t, []);
    assert [' '] + t + [] == [' '] + t;
  }

  /** `replace` removes the label wherever it stands on the line, not only in
      front: a line made of pieces with the label between them, none of the
      pieces holding the label, reads as the pieces run together and then
      stripped. */
  lemma LabelRemovedEverywhere(f: Field, ws: seq<string>)
    requires |ws| >= 1
    requires forall i :: 0 <= i < |ws| ==> !Occurs(ws[i], Label(f))
    ensures LabelValue(Interleave(ws, Label(f)), f) == Strip(Concat(ws))
  {
    LabelColonLast(f);
    assert LastUnique(Label(f));
    RemoveAllEverywhere(ws, Label(f));
  }

  lemma RenderedItemsAvoid(xs: seq<string>, c: char)
    requires c != '|' && c != ' '
    requires forall i :: 0 <= i < |xs| ==> c !in xs[i]
    ensures c !in RenderItems(xs)
  {
    if |xs| > 0 {
      forall i | 0 <= i < |xs| ensures c !in Padded(xs)[i] {
        assert Padded(xs)[i] == [' '] + xs[i] + [' '];
      }
      JoinAvoids(Padded(xs), '|', c);
    }
  }

  /** A label holds neither a space nor a pipe, so in a rendered list it can
      only occur inside one item. */
  lemma RenderedItemsNoLabel(f: Field, xs: seq<string>)
    requires forall i :: 0 <= i < |xs| ==> !Occurs(xs[i], Label(f))
    ensures !Occurs(RenderItems(xs), Label(f))
  {
    var L := Label(f);
    assert ' ' !in L && '|' !in L && |L| > 0;
    assert !Occurs([], L);
    if |xs| > 0 {
      var ps := Padded(xs);
      forall i | 0 <= i < |xs| ensures !Occurs(ps[i], L) {
        OccursAcross([], ' ', xs[i], L);
        assert [] + [' '] + xs[i] == [' '] + xs[i];
        OccursAcross([' '] + xs[i], ' ', [], L);
        assert [' '] + xs[i] + [' '] + [] == ps[i];
      }
      JoinNoOccurrence(ps, '|', L);
    }
  }

  lemma ItemsLineReadsBack(f: Field, xs: seq<string>)
    requires IsList(f)
    requires WellFormedItems(xs) && forall i :: 0 <= i < |xs| ==> '\n' !in xs[i] && !Occurs(xs[i], Label(f))
    ensures '\n' !in RenderItems(xs)
    ensures Extract(f, Label(f) + RenderItems(xs)) == Items(xs)
  {
    var L := Label(f);
    var rendered := RenderItems(xs);
    RenderedItemsAvoid(xs, '\n');
    RenderedItemsNoLabel(f, xs);
    RemoveAllLeading(L, rendered);
    assert LabelValue(L + rendered, f) == Strip(rendered);
    SplitItemsIgnoresStrip(rendered);
    ItemsRoundTrip(xs);
    assert SplitItems(Strip(rendered)) == xs;
  }

  lemma LabelSingleLine(f: Field)
    ensures '\n' !in Label(f)
  {
  }

  lemma RenderedLineReadsBack(f: Field, r: Report)
    requires Renderable(r)
    ensures '\n' !in RenderLine(f, r)
    ensures Extract(f, RenderLine(f, r)) == Get(r, f)
  {
    var v := Get(r, f);
    assert RenderableValue(f, v);
    if v.Scalar? {
      var line := Label(f) + " " + v.text;
      assert RenderLine(f, r) == line;
      ScalarLineReadsBack(f, v.text);
      LabelSingleLine(f);
    } else {
      assert RenderLine(f, r) == Label(f) + RenderItems(v.items);
      ItemsLineReadsBack(f, v.items);
      LabelSingleLine(f);
    }
  }

  /** The lines of a reply in the format's layout: one per field, in the
      format's order, each starting with its field's label. */
  predicate OneLinePerField(lines: seq<string>) {
    && |lines| == |Fields|
    && forall k :: 0 <= k < |lines| ==> StartsWith(lines[k], Label(Fields[k]))
  }

  lemma FieldFromItsLine(reply: string, f: Field)
    requires OneLinePerField(Split(reply, '\n'))
    ensures Get(Parse(reply), f) == Extract(f, Split(reply, '\n')[Rank(f)])
  {
    var lines := Split(reply, '\n');
    var k := Rank(f);
    assert LabelledAt(lines, k, f);
    forall j | k < j < |lines| ensures !LabelledAt(lines, j, f) {
      if LabelledAt(lines, j, f) {
        LabelsPrefixFree(lines[j], Fields[j], f);
      }
    }
    ParseLastLabelledLine(reply, f, k);
  }

  /** A reply in the format's layout sets every field from its own line. */
  lemma ParseOneLinePerField(reply: string)
    requires OneLinePerField(Split(reply, '\n'))
    ensures forall f :: Get(Parse(reply), f) == Extract(f, Split(reply, '\n')[Rank(f)])
  {
    forall f ensures Get(Parse(reply), f) == Extract(f, Split(reply, '\n')[Rank(f)]) {
      FieldFromItsLine(reply, f);
    }
  }

  /** Parsing a reply written in the requested format recovers every field. */
  lemma ParseRenderedReply(r: Report)
    requires Renderable(r)
    ensures Parse(RenderReply(r)) == r
  {
    var lines := seq(|Fields|, k requires 0 <= k < |Fields| => RenderLine(Fields[k], r));
    forall k | 0 <= k < |lines| ensures '\n' !in lines[k] {
      RenderedLineReadsBack(Fields[k], r);
    }
    SplitJoin(lines, '\n');
    ParseOneLinePerField(RenderReply(r));
    forall f ensures Get(Parse(RenderReply(r)), f) == Get(r, f) {
      RenderedLineReadsBack(f, r);
    }
    ReportExtensional(Parse(RenderReply(r)), r);
  }
}
