/**
 * The host side of a recording session: the module state of the recorder,
 * the request counter that marks interactions as network-triggering, the
 * binding that appends page records to the log, the download correlator
 * with its two-second duplicate window, and the start/stop life cycle.
 */
module Capture {
  import opened Wrappers
  import opened JsText
  import opened Interactions
  import opened Assembly

  /** Two download signals for one key closer than this are one download. */
  const DownloadWindowMs := 2000

  /** The key under which a download with no attributed selector is remembered. */
  const NullDownloadKey := "__null__"

  /** What `start` and `stop` throw. */
  datatype RecorderError = AlreadyRunning | NothingRunning | AssemblyFailed(cause: StopError)

  // ---------------------------------------------------------------- reportInteraction

  /** What the `reportInteraction` binding appends for a page record, given
      the number of XHR/fetch requests since the previous record and the last
      such request's URL: the record is marked network-triggering exactly when
      a request was seen, and only then gets the request URL, at the top level. */
  function Reported(rec: Interaction, pending: nat, lastUrl: Option<string>): (r: Interaction)
    ensures r.network <==> pending > 0
    ensures r.network ==> r.reqUrl == (if Truthy(lastUrl) then lastUrl else None)
    ensures !r.network ==> r.reqUrl == rec.reqUrl
    ensures r.(network := rec.network, reqUrl := rec.reqUrl) == rec
  {
    var network := pending > 0;
    rec.(network := network, reqUrl := if network then (if Truthy(lastUrl) then lastUrl else None) else rec.reqUrl)
  }

  /** No entry of the log carries a request URL inside its `meta`. */
  predicate NoMetaReqUrl(log: seq<Interaction>) {
    forall i :: 0 <= i < |log| ==> log[i].meta.None? || log[i].meta.value.reqUrl.None?
  }

  /** A log with no request URL inside any `meta` yields a map none of whose
      steps has an `expectedUrl`: the URL the binding attaches never reaches
      the saved map. */
  lemma NoExpectedUrlInSavedMap(log: seq<Interaction>, operation: Option<string>, category: Option<string>)
    requires NoMetaReqUrl(log)
    requires AssembledMap(log, operation, category).Ok?
    ensures var m := AssembledMap(log, operation, category).value;
      forall t :: 0 <= t < |m.steps| ==> m.steps[t].meta.None? || m.steps[t].meta.value.expectedUrl.None?
  {
    ExpectedUrlOnlyFromMeta(log);
    LogoutIsLastStep(log, operation, category);
    var m := AssembledMap(log, operation, category).value;
    var all := AllSteps(log);
    forall t | 0 <= t < |m.steps|
      ensures m.steps[t].meta.None? || m.steps[t].meta.value.expectedUrl.None?
    {
      assert m.steps[t].meta == all[t].meta;
    }
  }

  // ---------------------------------------------------------------- downloads

  /** `selector || '__null__'`. */
  function DownloadKey(selector: Option<string>): string {
    if Truthy(selector) then selector.value else NullDownloadKey
  }

  /** `recentDownloads.get(key) || 0`. */
  function LastDownloadAt(recent: map<string, int>, key: string): int {
    if key in recent then recent[key] else 0
  }

  /** A download signal is logged unless one with the same key was logged
      less than the window ago. */
  predicate DownloadDue(recent: map<string, int>, selector: Option<string>, now: int) {
    now - LastDownloadAt(recent, DownloadKey(selector)) >= DownloadWindowMs
  }

  /** The log entry of a download: only selector, action and timestamp. */
  function DownloadEntry(selector: Option<string>, now: int): Interaction {
    Interaction(selector, Download, "", NoAttrs, None, false, None, now, None)
  }

  /** The log and the remembered download times, as `pushDownloadOnce` sees them. */
  datatype DownloadLog = DownloadLog(log: seq<Interaction>, recent: map<string, int>)

  /** `pushDownloadOnce(selector)` at time `now`. */
  function PushDownload(d: DownloadLog, selector: Option<string>, now: int): DownloadLog {
    if DownloadDue(d.recent, selector, now) then
      DownloadLog(d.log + [DownloadEntry(selector, now)], d.recent[DownloadKey(selector) := now])
    else d
  }

  /** A second signal for the same key inside the window logs nothing. */
  lemma DownloadsWithinWindowCollapse(d: DownloadLog, selector: Option<string>, t1: int, t2: int)
    requires DownloadDue(d.recent, selector, t1)
    requires t1 <= t2 < t1 + DownloadWindowMs
    ensures PushDownload(PushDownload(d, selector, t1), selector, t2)
      == DownloadLog(d.log + [DownloadEntry(selector, t1)], d.recent[DownloadKey(selector) := t1])
  {
  }

  /** Two signals for the same key at least the window apart are both logged. */
  lemma DownloadsApartBothLogged(d: DownloadLog, selector: Option<string>, t1: int, t2: int)
    requires DownloadDue(d.recent, selector, t1)
    requires t2 >= t1 + DownloadWindowMs
    ensures PushDownload(PushDownload(d, selector, t1), selector, t2).log
      == d.log + [DownloadEntry(selector, t1), DownloadEntry(selector, t2)]
  {
  }

  /** Signals under different keys do not hold each other back; a missing
      and an empty selector share the key `__null__`. */
  lemma DownloadKeysIndependent(d: DownloadLog, a: Option<string>, b: Option<string>, t1: int, t2: int)
    requires DownloadKey(a) != DownloadKey(b)
    ensures DownloadDue(PushDownload(d, a, t1).recent, b, t2) == DownloadDue(d.recent, b, t2)
    ensures DownloadKey(None) == DownloadKey(Some(""))
  {
  }

  /** The index of the most recent click in the log. */
  function LastClickIndex(log: seq<Interaction>): (r: Option<nat>)
    ensures r.Some? ==> r.value < |log| && log[r.value].action == Click
    ensures r.Some? ==> forall k :: r.value < k < |log| ==> log[k].action != Click
    ensures r.None? ==> forall k :: 0 <= k < |log| ==> log[k].action != Click
  {
    if log == [] then None
    else if log[|log| - 1].action == Click then Some(|log| - 1)
    else LastClickIndex(log[..|log| - 1])
  }

  /** The selector a download is attributed to: the last click's, if any. */
  function AttributedSelector(log: seq<Interaction>): Option<string> {
    match LastClickIndex(log)
    case None => None
    case Some(i) => log[i].selector
  }

  /** The content type a response handler reads: `content-type`, else
      `Content-Type`, else the empty string. */
  function ContentType(headers: map<string, string>): string {
    var lower := if "content-type" in headers then Some(headers["content-type"]) else None;
    var upper := if "Content-Type" in headers then Some(headers["Content-Type"]) else None;
    FirstTruthy(lower, upper, None)
  }

  predicate Contains(s: string, part: string) {
    exists i :: 0 <= i <= |s| && part <= s[i..]
  }

  /** A response counts as a download when it is a navigation that delivers
      a PDF (the browser's PDF viewer opening in a tab or a popup). */
  predicate IsPdfNavigation(headers: map<string, string>, isNavigation: bool) {
    Contains(Lower(ContentType(headers)), "application/pdf") && isNavigation
  }

  // ---------------------------------------------------------------- the recorder

  /** The recorder's module state. `live` stands for an open browser. */
  class Recorder {
    var live: bool
    var output: string
    var interactions: seq<Interaction>
    var ajaxCount: nat
    var lastAjaxUrl: Option<string>
    var operation: Option<string>
    var category: Option<string>
    var recentDownloads: map<string, int>

    function Downloads(): DownloadLog
      reads this
    {
      DownloadLog(interactions, recentDownloads)
    }

    constructor ()
      ensures !live && output == "" && interactions == [] && ajaxCount == 0 && lastAjaxUrl == None
      ensures operation == None && category == None && recentDownloads == map[]
    {
      live := false;
      output := "";
      interactions := [];
      ajaxCount := 0;
      lastAjaxUrl := None;
      operation := None;
      category := None;
      recentDownloads := map[];
    }

    /** `start`: refused while a session is live; otherwise the log, the
        download memory and the request counter are reset (the last request
        URL is not) and operation and category are stored, a falsy one as
        `null`. */
    method Start(outputFile: string, op: Option<string>, cat: Option<string>) returns (r: Result<(), RecorderError>)
      modifies this
      ensures old(live) ==> r == Err(AlreadyRunning) && unchanged(this)
      ensures !old(live) ==>
        && r == Ok(())
        && live && output == outputFile && interactions == [] && recentDownloads == map[] && ajaxCount == 0
        && operation == (if Truthy(op) then op else None)
        && category == (if Truthy(cat) then cat else None)
        && lastAjaxUrl == old(lastAjaxUrl)
    {
      if live {
        return Err(AlreadyRunning);
      }
      output := outputFile;
      interactions := [];
      recentDownloads := map[];
      ajaxCount := 0;
      operation := if Truthy(op) then op else None;
      category := if Truthy(cat) then cat else None;
      live := true;
      r := Ok(());
    }

    /** The `request` listener: XHR and fetch requests are counted and the
        last one's URL remembered; other requests change nothing. */
    method OnRequest(resourceType: string, url: string)
      modifies this`ajaxCount, this`lastAjaxUrl
      ensures resourceType == "xhr" || resourceType == "fetch" ==>
        ajaxCount == old(ajaxCount) + 1 && lastAjaxUrl == Some(url)
      ensures !(resourceType == "xhr" || resourceType == "fetch") ==>
        ajaxCount == old(ajaxCount) && lastAjaxUrl == old(lastAjaxUrl)
    {
      if resourceType == "xhr" || resourceType == "fetch" {
        ajaxCount := ajaxCount + 1;
        lastAjaxUrl := Some(url);
      }
    }

    /** The `reportInteraction` binding: the record is appended with the
        network flag and URL of the requests seen since the previous one,
        and the counter starts again from zero. */
    method ReportInteraction(rec: Interaction)
      modifies this`interactions, this`ajaxCount
      ensures interactions == old(interactions) + [Reported(rec, old(ajaxCount), lastAjaxUrl)]
      ensures ajaxCount == 0
      ensures old(NoMetaReqUrl(interactions)) && (rec.meta.None? || rec.meta.value.reqUrl.None?) ==>
        NoMetaReqUrl(interactions)
    {
      var network := ajaxCount > 0;
      ajaxCount := 0;
      var entry := rec.(network := network);
      if network {
        entry := entry.(reqUrl := if Truthy(lastAjaxUrl) then lastAjaxUrl else None);
      }
      interactions := interactions + [entry];
    }

    /** `pushDownloadOnce(selector)` at time `now`. */
    method PushDownloadOnce(selector: Option<string>, now: int)
      modifies this`interactions, this`recentDownloads
      ensures Downloads() == PushDownload(old(Downloads()), selector, now)
      ensures old(NoMetaReqUrl(interactions)) ==> NoMetaReqUrl(interactions)
    {
      var key := if Truthy(selector) then selector.value else NullDownloadKey;
      var last := if key in recentDownloads then recentDownloads[key] else 0;
      if now - last < DownloadWindowMs {
        return;
      }
      interactions := interactions + [DownloadEntry(selector, now)];
      recentDownloads := recentDownloads[key := now];
    }

    /** The `download` listeners of the first page and of popups: the
        download is attributed to the most recent click. */
    method OnDownload(now: int)
      modifies this`interactions, this`recentDownloads
      ensures Downloads() == PushDownload(old(Downloads()), AttributedSelector(old(interactions)), now)
      ensures old(NoMetaReqUrl(interactions)) ==> NoMetaReqUrl(interactions)
    {
      var selector := AttributedSelector(interactions);
      PushDownloadOnce(selector, now);
    }

    /** The `response` listeners of the context and of popups: a navigation
        that delivers a PDF is a download attributed to the most recent click;
        any other response changes nothing. */
    method OnResponse(headers: map<string, string>, isNavigation: bool, now: int)
      modifies this`interactions, this`recentDownloads
      ensures IsPdfNavigation(headers, isNavigation) ==>
        Downloads() == PushDownload(old(Downloads()), AttributedSelector(old(interactions)), now)
      ensures !IsPdfNavigation(headers, isNavigation) ==> Downloads() == old(Downloads())
      ensures old(NoMetaReqUrl(interactions)) ==> NoMetaReqUrl(interactions)
    {
      if IsPdfNavigation(headers, isNavigation) {
        OnDownload(now);
      }
    }

    /** `stop`: refused when no session is live. Otherwise the map is
        assembled; when assembly throws, the session stays live and nothing
        changes; when it succeeds, the map is returned for writing and the
        session state is cleared (the request counter, the last request URL
        and the download memory are left as they are). */
    method Stop() returns (r: Result<MapDoc, RecorderError>)
      modifies this
      ensures !old(live) ==> r == Err(NothingRunning) && unchanged(this)
      ensures old(live) && AssembledMap(old(interactions), old(operation), old(category)).Err? ==>
        r == Err(AssemblyFailed(NoStepToPop)) && unchanged(this)
      ensures old(live) && AssembledMap(old(interactions), old(operation), old(category)).Ok? ==>
        && r == Ok(AssembledMap(old(interactions), old(operation), old(category)).value)
        && !live && interactions == [] && output == "" && operation == None && category == None
        && ajaxCount == old(ajaxCount) && lastAjaxUrl == old(lastAjaxUrl)
        && recentDownloads == old(recentDownloads)
      ensures old(live) && old(NoMetaReqUrl(interactions)) && r.Ok? ==>
        forall t :: 0 <= t < |r.value.steps| ==>
          r.value.steps[t].meta.None? || r.value.steps[t].meta.value.expectedUrl.None?
    {
      if !live {
        return Err(NothingRunning);
      }
      var assembled := Assemble(interactions, operation, category);
      if assembled.Err? {
        return Err(AssemblyFailed(assembled.error));
      }
      if NoMetaReqUrl(interactions) {
        NoExpectedUrlInSavedMap(interactions, operation, category);
      }
      live := false;
      interactions := [];
      output := "";
      operation := None;
      category := None;
      r := Ok(assembled.value);
    }
  }
}
