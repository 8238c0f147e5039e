/** The stored analysis records, the one-line summaries the history shows
    for them, and the sentence that states a white-pixel verdict. */
module Records {
  import opened Results
  import opened Text
  import opened Decimal
  import opened PixelCounter

  /** One stored analysis. Both kinds carry an id, the uploaded file's name
      and the moment of creation; the percentage is kept in hundredths. */
  datatype Analysis =
    | WhitePixel(id: string, imageName: string, whitePixelCount: nat, totalPixels: nat,
                 percentage: nat, analysisResult: string, timestamp: int)
    | Bonnet(id: string, imageName: string, carColor: string, condition: string,
             washOrRepaint: string, issues: seq<string>, recommendations: seq<string>,
             detailedReport: string, timestamp: int)

  /** One row of the history listing. */
  datatype HistoryEntry = HistoryEntry(id: string, analysisType: string, imageName: string,
                                       timestamp: int, summary: string)

  const WhitePixelType: string := "white_pixel"
  const BonnetType: string := "bonnet"

  /** The `analysis_type` tag each kind of record is stored with. */
  function AnalysisType(a: Analysis): (t: string)
    ensures t == WhitePixelType <==> a.WhitePixel?
    ensures t == BonnetType <==> a.Bonnet?
  {
    if a.WhitePixel? then WhitePixelType else BonnetType
  }

  const WhiteSummaryPrefix: string := "White Pixels: "

  /** The history's one-line summary: the percentage for a white-pixel
      record, colour, condition and verdict for a bonnet record. */
  function Summary(a: Analysis): (s: string)
    ensures a.WhitePixel? ==> StartsWith(s, WhiteSummaryPrefix) && s[|s| - 1] == '%'
  {
    match a
    case WhitePixel(_, _, _, _, p, _, _) => WhiteSummaryPrefix + PercentText(p) + "%"
    case Bonnet(_, _, c, k, w, _, _, _, _) => "Color: " + c + " | Condition: " + k + " | " + w
  }

  /** A summary shows which kind of record it describes. */
  lemma SummaryRevealsType(a: Analysis)
    ensures StartsWith(Summary(a), WhiteSummaryPrefix) <==> a.WhitePixel?
  {
    if a.Bonnet? {
      assert Summary(a)[0] == 'C';
    }
  }

  /** The percentage can be read back from a white-pixel summary. */
  lemma WhiteSummaryReadsBack(a: Analysis)
    requires a.WhitePixel?
    ensures var s := Summary(a);
      ReadPercent(s[|WhiteSummaryPrefix|..|s| - 1]) == Some(a.percentage)
  {
    var s := Summary(a);
    assert s[|WhiteSummaryPrefix|..|s| - 1] == PercentText(a.percentage);
    PercentTextRoundTrip(a.percentage);
  }

  lemma BonnetSummaryRegroup(c: string, k: string, w: string)
    ensures "Color: " + c + " | Condition: " + k + " | " + w
      == ("Color: " + c + " ") + "|" + (" Condition: " + k + " ") + "|" + (" " + w)
  {
    assert " | Condition: " == " " + "|" + " Condition: ";
    assert " | " == " " + "|" + " ";
  }

  /** With no `|` in its three values, a bonnet summary splits on `|` into
      the colour, condition and verdict parts. */
  lemma BonnetSummaryFields(a: Analysis)
    requires a.Bonnet?
    requires '|' !in a.carColor && '|' !in a.condition && '|' !in a.washOrRepaint
    ensures Split(Summary(a), '|')
      == ["Color: " + a.carColor + " ", " Condition: " + a.condition + " ", " " + a.washOrRepaint]
  {
    var c, k, w := a.carColor, a.condition, a.washOrRepaint;
    var p0, p1, p2 := "Color: " + c + " ", " Condition: " + k + " ", " " + w;
    JoinThree(p0, p1, p2, '|');
    BonnetSummaryRegroup(c, k, w);
    SplitJoin([p0, p1, p2], '|');
  }

  /** The word that names a band in the verdict sentence. */
  function BandName(b: Band): (s: string)
    ensures |s| >= 3
  {
    match b
    case High => "High"
    case Moderate => "Moderate"
    case Low => "Low"
    case Minimal => "Minimal"
  }

  /** The opening words of the verdict sentence for each band. */
  function Opening(b: Band): (s: string)
    ensures |s| >= 3
  {
    BandName(b) + " white pixel concentration ("
  }

  /** The closing words of the verdict sentence for each band. */
  function Closing(b: Band): string {
    match b
    case High => "%). Image appears to be predominantly white or overexposed."
    case Moderate => "%). Image contains significant white areas."
    case Low => "%). Image has some white areas."
    case Minimal => "%). Image has very few white areas."
  }

  /** The `analysis_result` sentence for a percentage in hundredths. */
  function ResultText(h: nat): (s: string)
    ensures StartsWith(s, Opening(Classify(h)))
  {
    var b := Classify(h);
    Opening(b) + PercentText(h) + Closing(b)
  }

  /** The first two letters tell the band names apart. */
  lemma BandNamesDiffer(b1: Band, b2: Band)
    ensures BandName(b1)[0] == BandName(b2)[0] && BandName(b1)[1] == BandName(b2)[1] ==> b1 == b2
  {
  }

  lemma SentenceInitials(h: nat)
    ensures ResultText(h)[0] == BandName(Classify(h))[0]
    ensures ResultText(h)[1] == BandName(Classify(h))[1]
  {
    var b := Classify(h);
    var o, p := Opening(b), PercentText(h);
    assert ResultText(h) == o + p + Closing(b);
    assert o[0] == BandName(b)[0] && o[1] == BandName(b)[1];
  }

  /** Equal verdict sentences are about the same band. */
  lemma SameSentenceSameBand(h1: nat, h2: nat)
    requires ResultText(h1) == ResultText(h2)
    ensures Classify(h1) == Classify(h2)
  {
    SentenceInitials(h1);
    SentenceInitials(h2);
    BandNamesDiffer(Classify(h1), Classify(h2));
  }

  /** Different percentages never share a verdict sentence: the sentence
      names the band and quotes the percentage. */
  lemma ResultTextInjective(h1: nat, h2: nat)
    requires ResultText(h1) == ResultText(h2)
    ensures h1 == h2
  {
    SameSentenceSameBand(h1, h2);
    var b := Classify(h1);
    var o, c := Opening(b), Closing(b);
    Middle(o, PercentText(h1), c);
    Middle(o, PercentText(h2), c);
    PercentTextInjective(h1, h2);
  }
}
