/** Downloading the client (public/js/backend.js, FileDownloader and FileDecompressor).
    The network and gzip decoding are oracles: the i-th request of a load ends with
    net(i), and decompress(bytes) is what the decompression stream yields (None when it
    throws or produces nothing). */
module Transfer {
  import opened Wrappers
  import opened Config
  import opened Effects
  import opened Gateways

  /** How one XMLHttpRequest ends: it completes with an HTTP status and a body, fails at
      the network level, or is aborted by the cancel button. */
  datatype XhrOutcome = Completed(status: int, body: Bytes) | NetworkError | Aborted

  /** The retry budget of downloadClient: one attempt per configured mirror. */
  const ATTEMPTS: nat := |GatewayList()|

  /** What download(url) resolves to: the body on status 200, nothing otherwise. */
  function ResponseData(outcome: XhrOutcome): (r: Option<Bytes>)
    ensures r.Some? <==> outcome.Completed? && outcome.status == 200
    ensures r.Some? ==> r.value == outcome.body
  {
    match outcome
    case Completed(status, body) => if status == 200 then Some(body) else None
    case _ => None
  }

  /** The bytes one iteration of downloadClient returns, if it returns any: with gzip on,
      the download must succeed and then decompress. */
  function AttemptData(outcome: XhrOutcome, gzip: bool, decompress: Bytes -> Option<Bytes>): (r: Option<Bytes>)
    ensures r.Some? <==> outcome.Completed? && outcome.status == 200 && (!gzip || decompress(outcome.body).Some?)
    ensures r.Some? && gzip ==> r == decompress(outcome.body)
    ensures r.Some? && !gzip ==> r.value == outcome.body
  {
    match ResponseData(outcome)
    case None => None
    case Some(raw) => if gzip then decompress(raw) else Some(raw)
  }

  /** The first attempt, from attempt i on, that yields bytes. */
  function FirstSuccessFrom(net: nat -> XhrOutcome, gzip: bool, decompress: Bytes -> Option<Bytes>, i: nat): (k: Option<nat>)
    ensures k.Some? ==> i <= k.value < ATTEMPTS && AttemptData(net(k.value), gzip, decompress).Some?
    ensures forall j :: i <= j < (if k.Some? then k.value else ATTEMPTS) ==>
      AttemptData(net(j), gzip, decompress).None?
    decreases ATTEMPTS - i
  {
    if i >= ATTEMPTS then None
    else if AttemptData(net(i), gzip, decompress).Some? then Some(i)
    else FirstSuccessFrom(net, gzip, decompress, i + 1)
  }

  lemma FirstSuccessAt(net: nat -> XhrOutcome, gzip: bool, decompress: Bytes -> Option<Bytes>, i: nat)
    requires i < ATTEMPTS && AttemptData(net(i), gzip, decompress).Some?
    requires forall j :: 0 <= j < i ==> AttemptData(net(j), gzip, decompress).None?
    ensures FirstSuccessFrom(net, gzip, decompress, 0) == Some(i)
  {
  }

  lemma NoSuccess(net: nat -> XhrOutcome, gzip: bool, decompress: Bytes -> Option<Bytes>)
    requires forall j :: 0 <= j < ATTEMPTS ==> AttemptData(net(j), gzip, decompress).None?
    ensures FirstSuccessFrom(net, gzip, decompress, 0) == None
  {
  }

  /** The trace of k failed iterations: each one a request followed by the retry delay. */
  function FailedRounds(url: string, k: nat): (s: seq<Effect>)
    ensures |s| == 2 * k
    ensures forall j :: 0 <= j < k ==> s[2 * j] == Request(url) && s[2 * j + 1] == Delay(RETRY_DELAY_MS)
  {
    if k == 0 then [] else FailedRounds(url, k - 1) + [Request(url), Delay(RETRY_DELAY_MS)]
  }

  datatype DownloadResult = DownloadResult(data: Option<Bytes>, effects: seq<Effect>)

  /** What downloadClient(url) does: it stops at the first attempt that yields bytes, and
      otherwise spends the whole budget and answers nothing. */
  function DownloadSpec(url: string, gzip: bool, net: nat -> XhrOutcome, decompress: Bytes -> Option<Bytes>): DownloadResult
  {
    match FirstSuccessFrom(net, gzip, decompress, 0)
    case None => DownloadResult(None, FailedRounds(url, ATTEMPTS))
    case Some(k) => DownloadResult(AttemptData(net(k), gzip, decompress), FailedRounds(url, k) + [Request(url)])
  }

  lemma {:induction false} RequestCountOfFailedRounds(url: string, k: nat)
    ensures RequestCount(FailedRounds(url, k)) == k
  {
    if k > 0 {
      var s := FailedRounds(url, k);
      RequestCountOfFailedRounds(url, k - 1);
      assert s[..|s| - 1] == FailedRounds(url, k - 1) + [Request(url)];
      assert (FailedRounds(url, k - 1) + [Request(url)])[..2 * k - 2] == FailedRounds(url, k - 1);
    }
  }

  /** downloadClient answers bytes exactly when one of its attempts yields them, and then
      it answers those of the first such attempt, after one request per attempt made. */
  lemma DownloadResultIsFirstSuccess(url: string, gzip: bool, net: nat -> XhrOutcome, decompress: Bytes -> Option<Bytes>)
    ensures var d := DownloadSpec(url, gzip, net, decompress);
      (d.data.Some? <==> exists k :: 0 <= k < ATTEMPTS && AttemptData(net(k), gzip, decompress).Some?) &&
      (d.data.Some? ==>
         exists k :: (0 <= k < ATTEMPTS &&
           d.data == AttemptData(net(k), gzip, decompress) &&
           (forall j :: 0 <= j < k ==> AttemptData(net(j), gzip, decompress).None?) &&
           d.effects == FailedRounds(url, k) + [Request(url)]))
  {
  }

  /** Every step is a request to url or the retry delay. */
  predicate RetryTrace(effects: seq<Effect>, url: string) {
    forall i :: 0 <= i < |effects| ==> effects[i] == Request(url) || effects[i] == Delay(RETRY_DELAY_MS)
  }

  lemma FailedRoundsAreRetryTrace(url: string, k: nat)
    ensures RetryTrace(FailedRounds(url, k), url)
    ensures RetryTrace(FailedRounds(url, k) + [Request(url)], url)
  {
    var s := FailedRounds(url, k);
    forall i | 0 <= i < |s|
      ensures s[i] == Request(url) || s[i] == Delay(RETRY_DELAY_MS)
    {
      var j := i / 2;
      assert i == 2 * j || i == 2 * j + 1;
    }
  }

  /** The shape of downloadClient's trace: at least one and at most ATTEMPTS (eight)
      requests, all to the same URL; every delay is the retry delay; and when nothing is
      returned, all eight attempts were made, each followed by its delay, the last one too. */
  lemma DownloadTrace(url: string, gzip: bool, net: nat -> XhrOutcome, decompress: Bytes -> Option<Bytes>)
    ensures ATTEMPTS == 8
    ensures var d := DownloadSpec(url, gzip, net, decompress);
      1 <= RequestCount(d.effects) <= ATTEMPTS && RetryTrace(d.effects, url) &&
      (d.data.None? ==>
         (RequestCount(d.effects) == ATTEMPTS && d.effects == FailedRounds(url, ATTEMPTS) &&
          d.effects[|d.effects| - 1] == Delay(RETRY_DELAY_MS)))
  {
    assert ATTEMPTS == 8;
    FailedRoundsAreRetryTrace(url, ATTEMPTS);
    match FirstSuccessFrom(net, gzip, decompress, 0)
    case None =>
      RequestCountOfFailedRounds(url, ATTEMPTS);
      var f := FailedRounds(url, ATTEMPTS);
      assert f[2 * (ATTEMPTS - 1) + 1] == Delay(RETRY_DELAY_MS);
    case Some(k) =>
      var f := FailedRounds(url, k);
      RequestCountOfFailedRounds(url, k);
      FailedRoundsAreRetryTrace(url, k);
      assert (f + [Request(url)])[..|f|] == f;
  }

  /** The in-flight request handle and the cancel button, which the download updates. */
  class Transfer {
    var currentXhr: Option<string>
    var hasCancelButton: bool
    var cancelDisabled: bool
    var cancelShown: bool

    /** The state once the progress screen is built: no request, the button hidden and off. */
    constructor (hasCancelButton: bool)
      ensures currentXhr == None && this.hasCancelButton == hasCancelButton
      ensures cancelDisabled && !cancelShown
    {
      currentXhr := None;
      this.hasCancelButton := hasCancelButton;
      cancelDisabled := true;
      cancelShown := false;
    }

    /** download(url): one GET that resolves to the body on status 200 and to nothing on any
        other status, a network error or an abort. The cancel button is shown and enabled
        while the request runs; afterwards no request is in flight and the button is off. */
    method Download(url: string, outcome: XhrOutcome) returns (data: Option<Bytes>)
      modifies this
      ensures data == ResponseData(outcome)
      ensures currentXhr == None && hasCancelButton == old(hasCancelButton)
      ensures hasCancelButton ==> cancelDisabled && cancelShown
      ensures !hasCancelButton ==> cancelDisabled == old(cancelDisabled) && cancelShown == old(cancelShown)
    {
      currentXhr := Some(url);
      if hasCancelButton {
        cancelDisabled := false;
        cancelShown := true;
      }
      // the request runs until it ends with `outcome`
      if hasCancelButton {
        cancelDisabled := true;
      }
      currentXhr := None;
      match outcome {
        case Completed(status, body) =>
          data := if status == 200 then Some(body) else None;
        case _ =>
          data := None;
      }
    }

    /** downloadClient(downloadUrl): up to ATTEMPTS sequential attempts, every one to
        downloadUrl; a failed download or decompression is followed by the retry delay. */
    method DownloadClient(url: string, gzip: bool, net: nat -> XhrOutcome, decompress: Bytes -> Option<Bytes>)
      returns (data: Option<Bytes>, effects: seq<Effect>)
      modifies this
      ensures DownloadResult(data, effects) == DownloadSpec(url, gzip, net, decompress)
      ensures currentXhr == None && hasCancelButton == old(hasCancelButton)
      ensures hasCancelButton ==> cancelDisabled && cancelShown
      ensures !hasCancelButton ==> cancelDisabled == old(cancelDisabled) && cancelShown == old(cancelShown)
    {
      effects := [];
      var i := 0;
      while i < ATTEMPTS
        invariant 0 <= i <= ATTEMPTS
        invariant forall j :: 0 <= j < i ==> AttemptData(net(j), gzip, decompress).None?
        invariant effects == FailedRounds(url, i)
        invariant i > 0 ==> currentXhr == None
        invariant hasCancelButton == old(hasCancelButton)
        invariant i > 0 && hasCancelButton ==> cancelDisabled && cancelShown
        invariant !hasCancelButton ==> cancelDisabled == old(cancelDisabled) && cancelShown == old(cancelShown)
      {
        effects := effects + [Request(url)];
        var raw := Download(url, net(i));
        if raw.Some? {
          if gzip {
            var unpacked := decompress(raw.value);
            if unpacked.Some? {
              FirstSuccessAt(net, gzip, decompress, i);
              return unpacked, effects;
            }
          } else {
            FirstSuccessAt(net, gzip, decompress, i);
            return raw, effects;
          }
        }
        effects := effects + [Delay(RETRY_DELAY_MS)];
        i := i + 1;
      }
      NoSuccess(net, gzip, decompress);
      data := None;
    }
  }
}
