/** The request handlers over the in-memory store: the two analyses, the
    history listing and the detail lookup. Each handler takes the store and
    returns the store after the request together with the response. Image
    decoding, the language-model call, ids and clocks come in as
    parameters. */
module Service {
  import opened Results
  import opened ReplyParser
  import opened PixelCounter
  import opened Records
  import opened AnalysisStore

  /** A response body, or the HTTP status of the error raised instead. */
  datatype Response<T> = Success(body: T) | HttpError(status: nat)

  const NotFound: nat := 404
  const ServerError: nat := 500

  datatype Outcome = Outcome(store: Store, response: Response<Analysis>)

  /** The white-pixel record for a measured image. */
  function WhitePixelRecord(id: string, imageName: string, stats: PixelStats, now: int): Analysis {
    WhitePixel(id, imageName, stats.whitePixelCount, stats.totalPixels, stats.percentage,
               ResultText(stats.percentage), now)
  }

  /** `POST /analyze/white-pixels`. `image` is None when the upload is not
      a readable image; an empty image fails on the division. Either
      failure answers 500 and stores nothing. */
  function AnalyzeWhitePixels(store: Store, image: Option<seq<Pixel>>, imageName: string,
                              id: string, now: int): (out: Outcome)
    ensures out.response.HttpError? <==> image.None? || |image.value| == 0
    ensures out.response.HttpError? ==> out.response.status == ServerError && out.store == store
    ensures out.response.Success? ==>
      var a := out.response.body;
      && out.store == store + [a]
      && a.WhitePixel? && a.id == id && a.imageName == imageName && a.timestamp == now
      && a.totalPixels == |image.value|
      && a.whitePixelCount == |WhitePositions(image.value)|
      && a.percentage <= 10000
      && 2 * (a.percentage * a.totalPixels - 10000 * a.whitePixelCount) <= a.totalPixels
      && 2 * (10000 * a.whitePixelCount - a.percentage * a.totalPixels) <= a.totalPixels
      && a.analysisResult == ResultText(a.percentage)
      && Text.StartsWith(a.analysisResult, Opening(Classify(a.percentage)))
  {
    match image
    case None => Outcome(store, HttpError(ServerError))
    case Some(pixels) =>
      match Measure(pixels)
      case Err(_) => Outcome(store, HttpError(ServerError))
      case Ok(stats) =>
        MeasureCountsWhite(pixels);
        var a := WhitePixelRecord(id, imageName, stats, now);
        Outcome(store + [a], Success(a))
  }

  /** The bonnet record for a parsed reply. */
  function BonnetRecord(id: string, imageName: string, r: Report, now: int): Analysis {
    Bonnet(id, imageName, r.carColor, r.condition, r.washOrRepaint, r.issues,
           r.recommendations, r.detailedReport, now)
  }

  /** `POST /analyze/bonnet`. `reply` is the language model's answer, None
      when the call failed, which answers 500 and stores nothing. */
  function AnalyzeBonnet(store: Store, reply: Option<string>, imageName: string,
                         id: string, now: int): (out: Outcome)
    ensures out.response.HttpError? <==> reply.None?
    ensures out.response.HttpError? ==> out.response.status == ServerError && out.store == store
    ensures out.response.Success? ==>
      var a := out.response.body;
      && out.store == store + [a]
      && a.Bonnet? && a.id == id && a.imageName == imageName && a.timestamp == now
      && var r := Parse(reply.value);
      && a.carColor == r.carColor && a.condition == r.condition
      && a.washOrRepaint == r.washOrRepaint && a.issues == r.issues
      && a.recommendations == r.recommendations && a.detailedReport == r.detailedReport
      && WellFormedItems(a.issues) && WellFormedItems(a.recommendations)
  {
    match reply
    case None => Outcome(store, HttpError(ServerError))
    case Some(text) =>
      var a := BonnetRecord(id, imageName, Parse(text), now);
      Outcome(store + [a], Success(a))
  }

  /** `GET /analysis/{id}`: the stored record, or 404 for an unknown id. */
  function GetDetail(store: Store, id: string): (r: Response<Analysis>)
    ensures r.HttpError? <==> forall k :: 0 <= k < |store| ==> store[k].id != id
    ensures r.HttpError? ==> r.status == NotFound
    ensures r.Success? ==> r.body.id == id && r.body in store
  {
    match FindById(store, id)
    case None => HttpError(NotFound)
    case Some(a) => Success(a)
  }

  /** `GET /analysis/history`. */
  function GetHistory(store: Store): (r: Response<seq<HistoryEntry>>)
    ensures r.Success? && |r.body| <= HistoryLimit
  {
    Success(History(store))
  }

  /** A white-pixel analysis stored under a fresh id can be fetched back
      by that id. */
  lemma AnalysisCanBeFetched(store: Store, image: Option<seq<Pixel>>, imageName: string,
                             id: string, now: int)
    requires forall k :: 0 <= k < |store| ==> store[k].id != id
    ensures var out := AnalyzeWhitePixels(store, image, imageName, id, now);
      out.response.Success? ==> GetDetail(out.store, id) == out.response
  {
    var out := AnalyzeWhitePixels(store, image, imageName, id, now);
    if out.response.Success? {
      FindAfterInsert(store, out.response.body, id);
    }
  }

  /** A bonnet analysis stored under a fresh id can be fetched back by that
      id, and every other id keeps answering as before. */
  lemma BonnetCanBeFetched(store: Store, reply: string, imageName: string,
                           id: string, other: string, now: int)
    requires forall k :: 0 <= k < |store| ==> store[k].id != id
    requires other != id
    ensures var out := AnalyzeBonnet(store, Some(reply), imageName, id, now);
      && GetDetail(out.store, id) == out.response
      && out.response.body == BonnetRecord(id, imageName, Parse(reply), now)
      && GetDetail(out.store, other) == GetDetail(store, other)
  {
    var out := AnalyzeBonnet(store, Some(reply), imageName, id, now);
    FindAfterInsert(store, out.response.body, id);
    FindAfterInsert(store, out.response.body, other);
  }

  /** An analysis made later than everything stored is the first row of
      the next history listing. */
  lemma LatestAnalysisListedFirst(store: Store, image: Option<seq<Pixel>>, imageName: string,
                                  id: string, now: int)
    requires forall k :: 0 <= k < |store| ==> store[k].timestamp < now
    ensures var out := AnalyzeWhitePixels(store, image, imageName, id, now);
      out.response.Success? ==> History(out.store)[0] == Entry(out.response.body)
  {
    var out := AnalyzeWhitePixels(store, image, imageName, id, now);
    if out.response.Success? {
      NewestHeadsHistory(store, out.response.body);
    }
  }

  /** A bonnet analysis made later than everything stored is the first row
      of the next history listing. */
  lemma LatestBonnetListedFirst(store: Store, reply: Option<string>, imageName: string,
                                id: string, now: int)
    requires forall k :: 0 <= k < |store| ==> store[k].timestamp < now
    ensures var out := AnalyzeBonnet(store, reply, imageName, id, now);
      out.response.Success? ==> History(out.store)[0] == Entry(out.response.body)
  {
    var out := AnalyzeBonnet(store, reply, imageName, id, now);
    if out.response.Success? {
      NewestHeadsHistory(store, out.response.body);
    }
  }
}
