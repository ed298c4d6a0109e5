/**
  The bridge module the plugins call (moonplayer.*) and the GetUrl object behind
  get_content / post_content. GetUrl keeps its slot in fields that start, onFinished and
  onTimeOut rewrite, and the activations suspended in a callback or a warning box; each method is proved against the matching transition of FetchTask,
  and `trace` records, in order, what it did to the world (references, requests,
  warning boxes, callback calls).
*/
module PyApi {
  import opened Wrappers
  import opened PyObjects
  import opened FetchTask
  import QtStrings

  class GetUrl {
    var callbackFunc: Option<PyObj>
    var data: Option<PyObj>
    var reply: Option<Request>   // left pointing at the last reply once it is deleted
    var timer: Timer
    var finalUrl: string         // the module attribute moonplayer.final_url
    var suspended: seq<Frame>    // onFinished activations waiting for their callback or warning box
    var trace: seq<Effect>

    function State(): Task
      reads this
    {
      Task(callbackFunc, data, reply, timer, finalUrl, suspended)
    }

    ghost predicate Valid()
      reads this
    {
      Wf(State()) && Balanced(State(), trace)
    }

    /** hasTask(): reads the callback slot and nothing else. */
    predicate HasTask()
      reads this`callbackFunc
    {
      callbackFunc != None
    }

    constructor ()
      ensures Valid() && State() == Idle && trace == []
    {
      callbackFunc := None;
      data := None;
      reply := None;
      timer := Stopped;
      finalUrl := "";
      suspended := [];
      trace := [];
      IdleBalanced();
    }

    method Start(url: string, callback: PyObj, d: PyObj, referer: string, postData: string)
      requires Valid() && !HasTask()
      modifies this
      ensures Valid() && HasTask()
      ensures var s := FetchTask.Start(old(State()), url, callback, d, referer, postData);
        State() == s.task && trace == old(trace) + s.effects
    {
      StartBalanced(State(), trace, url, callback, d, referer, postData);
      callbackFunc := Some(callback);
      data := Some(d);
      var request := MakeRequest(url, referer, postData);
      reply := Some(request);
      trace := trace + [Acquire(callback), Acquire(d), Send(request)];
      timer := Armed(TimeoutMs);
      finalUrl := url;
    }

    method OnFinished(r: Reply)
      requires Valid() && HasTask()
      modifies this
      ensures Valid()
      ensures var s := Finish(old(State()), r);
        State() == s.task && trace == old(trace) + s.effects
    {
      FinishBalanced(State(), trace, r);
      timer := Stopped;
      if IsRedirect(r.status) {
        var location := QtStrings.CString(r.location);
        finalUrl := location;
        var request := RedirectRequest(location);
        reply := Some(request);
        trace := trace + [Send(request)];
        return;
      }
      var callback := callbackFunc.value;
      var d := data.value;
      callbackFunc := None;
      data := None;
      if r.error != NoError {
        trace := trace + [WarnUser(NetworkErrorText(r))];
        suspended := suspended + [Frame(callback, d, InWarning)];
        return;
      }
      trace := trace + [Invoke(callback, QtStrings.CString(r.body), d)];
      suspended := suspended + [Frame(callback, d, InCallback)];
    }

    method OnTimeOut(r: Reply)
      requires Valid() && timer.Armed?
      modifies this
      ensures Valid()
      ensures var s := TimeOut(old(State()), r);
        State() == s.task && trace == old(trace) + s.effects
    {
      timer := Stopped;
      assert Balanced(State(), trace) by {
        assert forall o :: Owed(State(), o) == Owed(old(State()), o);
      }
      OnFinished(r.(error := OperationCanceled));
    }

    method CallbackReturned(failed: bool)
      requires Valid() && |suspended| > 0 && suspended[|suspended| - 1].pending == InCallback
      modifies this
      ensures Valid()
      ensures var s := FetchTask.CallbackReturned(old(State()), failed);
        State() == s.task && trace == old(trace) + s.effects
    {
      CallbackReturnedBalanced(State(), trace, failed);
      var f := suspended[|suspended| - 1];
      suspended := suspended[..|suspended| - 1];
      trace := trace + ([Release(f.data), Release(f.callback)] + (if failed then [ReportCallbackError] else []));
    }

    /** The modal warning box of the innermost suspended onFinished returns. */
    method WarningClosed()
      requires Valid() && |suspended| > 0 && suspended[|suspended| - 1].pending == InWarning
      modifies this
      ensures Valid()
      ensures var s := FetchTask.WarningClosed(old(State()));
        State() == s.task && trace == old(trace) + s.effects
    {
      WarningClosedBalanced(State(), trace);
      var f := suspended[|suspended| - 1];
      suspended := suspended[..|suspended| - 1];
      trace := trace + [Release(f.data), Release(f.callback)];
    }
  }

  /** One row of the search result view: res_library->addItem(name, pic_url, url). */
  datatype ResItem = ResItem(name: string, picUrl: string, url: string)

  datatype Dialog = WarningBox(text: string) | QuestionBox(text: string)

  /** The checks res_show makes of one record: the three keys first, then that each holds a string. */
  function RecordCheck(v: PyValue): Result<ResItem, PyError> {
    var entries := if v.PyDict? then v.entries else map[];
    if "name" !in entries || "url" !in entries || "pic_url" !in entries then Failure(NoExceptionSet)
    else if !entries["name"].PyStr? || !entries["url"].PyStr? || !entries["pic_url"].PyStr? then Failure(ConversionFailed)
    else Success(ResItem(entries["name"].s, entries["pic_url"].s, entries["url"].s))
  }

  /** The items res_show leaves in the view: those of the records before the first bad one. */
  function ResView(records: seq<PyValue>): seq<ResItem> {
    if records == [] then []
    else match RecordCheck(records[0])
      case Failure(_) => []
      case Success(item) => [item] + ResView(records[1..])
  }

  /** What res_show returns for a list: None when every record is good, otherwise the first bad record's error. */
  function ResResult(records: seq<PyValue>): PyReturn {
    if records == [] then ReturnNone
    else match RecordCheck(records[0])
      case Failure(e) => ReturnNull(e)
      case Success(_) => ResResult(records[1..])
  }

  /** The view holds one item per good record, in order, and stops exactly at the first bad record;
      the result is None when no record is bad and that record's error otherwise. */
  lemma {:induction false} ResShowOutcome(records: seq<PyValue>)
    ensures var r := ResView(records);
      && |r| <= |records|
      && (forall k :: 0 <= k < |r| ==> RecordCheck(records[k]) == Success(r[k]))
      && (|r| < |records| ==> RecordCheck(records[|r|]).Failure?)
      && (ResResult(records) == ReturnNone <==> |r| == |records|)
      && (|r| < |records| ==> ResResult(records) == ReturnNull(RecordCheck(records[|r|]).error))
  {
    if records != [] && RecordCheck(records[0]).Success? {
      ResShowOutcome(records[1..]);
      var r := ResView(records);
      assert r[1..] == ResView(records[1..]);
      assert forall k :: 1 <= k < |records| ==> records[1..][k - 1] == records[k];
    }
  }

  /** One iteration of the res_show loop, on the records from index `i` on. */
  lemma ResStep(records: seq<PyValue>, i: nat)
    requires i < |records|
    ensures var check := RecordCheck(records[i]);
      && (check.Failure? ==> ResView(records[i..]) == [] && ResResult(records[i..]) == ReturnNull(check.error))
      && (check.Success? ==> ResView(records[i..]) == [check.value] + ResView(records[i + 1..])
                             && ResResult(records[i..]) == ResResult(records[i + 1..]))
  {
    assert records[i..][0] == records[i];
    assert records[i..][1..] == records[i + 1..];
  }

  predicate NoDuplicates(s: seq<string>) {
    forall i, j :: 0 <= i < j < |s| ==> s[i] != s[j]
  }

  /** The functions of the moonplayer module and the process-wide state they touch. */
  class Bridge {
    const fetcher: GetUrl                        // geturl_obj
    var refererTable: map<string, string>        // referer_table
    var unseekableHosts: seq<string>             // unseekable_hosts
    var view: seq<ResItem>                       // res_library's result list
    var detailPages: seq<map<string, PyValue>>   // res_library->openDetailPage
    var parseResults: seq<map<string, PyValue>>  // parser_webcatch->onParseFinished
    var dialogs: seq<Dialog>

    ghost predicate Valid()
      reads this, fetcher
    {
      fetcher.Valid() && NoDuplicates(unseekableHosts)
    }

    constructor ()
      ensures Valid() && fresh(fetcher)
      ensures fetcher.State() == Idle && fetcher.trace == []
      ensures refererTable == map[] && unseekableHosts == [] && view == []
      ensures detailPages == [] && parseResults == [] && dialogs == []
    {
      fetcher := new GetUrl();
      refererTable := map[];
      unseekableHosts := [];
      view := [];
      detailPages := [];
      parseResults := [];
      dialogs := [];
    }

    /** get_content (and its alias download_page): refused while a task is held, otherwise a GET. */
    method GetContent(url: string, callback: PyObj, d: PyObj, referer: Option<string>) returns (ret: PyReturn)
      requires Valid()
      modifies fetcher
      ensures Valid()
      ensures old(fetcher.HasTask()) ==> ret == ReturnNull(GetUrlError(TaskRunningMessage)) && unchanged(fetcher)
      ensures !old(fetcher.HasTask()) ==>
        && ret == ReturnNone
        && var s := FetchTask.Start(old(fetcher.State()), url, callback, d, referer.GetOr(""), "");
           fetcher.State() == s.task && fetcher.trace == old(fetcher.trace) + s.effects
    {
      if fetcher.HasTask() {
        return ReturnNull(GetUrlError(TaskRunningMessage));
      }
      fetcher.Start(url, callback, d, referer.GetOr(""), "");
      return ReturnNone;
    }

    /** post_content: refused while a task is held, otherwise a request carrying `post`. */
    method PostContent(url: string, post: string, callback: PyObj, d: PyObj, referer: Option<string>) returns (ret: PyReturn)
      requires Valid()
      modifies fetcher
      ensures Valid()
      ensures old(fetcher.HasTask()) ==> ret == ReturnNull(GetUrlError(TaskRunningMessage)) && unchanged(fetcher)
      ensures !old(fetcher.HasTask()) ==>
        && ret == ReturnNone
        && var s := FetchTask.Start(old(fetcher.State()), url, callback, d, referer.GetOr(""), post);
           fetcher.State() == s.task && fetcher.trace == old(fetcher.trace) + s.effects
    {
      if fetcher.HasTask() {
        return ReturnNull(GetUrlError(TaskRunningMessage));
      }
      fetcher.Start(url, callback, d, referer.GetOr(""), post);
      return ReturnNone;
    }

    method BindReferer(host: string, url: string) returns (ret: PyReturn)
      modifies this`refererTable
      ensures refererTable == old(refererTable)[host := url]
      ensures ret == ReturnNone
    {
      refererTable := refererTable[host := url];
      return ReturnNone;
    }

    method ForceUnseekable(host: string) returns (ret: PyReturn)
      requires Valid()
      modifies this`unseekableHosts
      ensures Valid()
      ensures unseekableHosts == if host in old(unseekableHosts) then old(unseekableHosts) else old(unseekableHosts) + [host]
      ensures ret == ReturnNone
    {
      if host !in unseekableHosts {
        unseekableHosts := unseekableHosts + [host];
      }
      return ReturnNone;
    }

    method Warn(message: string) returns (ret: PyReturn)
      modifies this`dialogs
      ensures dialogs == old(dialogs) + [WarningBox(message)]
      ensures ret == ReturnNone
    {
      dialogs := dialogs + [WarningBox(message)];
      return ReturnNone;
    }

    /** question: `answeredYes` is the user's choice in the dialog. */
    method Question(message: string, answeredYes: bool) returns (ret: PyReturn)
      modifies this`dialogs
      ensures dialogs == old(dialogs) + [QuestionBox(message)]
      ensures ret == ReturnBool(answeredYes)
    {
      dialogs := dialogs + [QuestionBox(message)];
      return ReturnBool(answeredYes);
    }

    /** res_show: a non-list is refused before the view is touched; otherwise the view is cleared and refilled until the first bad record. */
    method ResShow(arg: PyValue) returns (ret: PyReturn)
      modifies this`view
      ensures !arg.PyList? ==> ret == ReturnNull(NoExceptionSet) && view == old(view)
      ensures arg.PyList? ==> view == ResView(arg.items) && ret == ResResult(arg.items)
    {
      if !arg.PyList? {
        return ReturnNull(NoExceptionSet);
      }
      var records := arg.items;
      view := [];
      var i := 0;
      while i < |records|
        invariant 0 <= i <= |records|
        invariant view + ResView(records[i..]) == ResView(records)
        invariant ResResult(records[i..]) == ResResult(records)
      {
        ResStep(records, i);
        var check := RecordCheck(records[i]);
        if check.Failure? {
          return ReturnNull(check.error);
        }
        assert view + [check.value] + ResView(records[i + 1..]) == view + ([check.value] + ResView(records[i + 1..]));
        view := view + [check.value];
        i := i + 1;
      }
      assert records[i..] == [];
      return ReturnNone;
    }

    method ShowDetail(arg: PyValue) returns (ret: PyReturn)
      modifies this`detailPages
      ensures arg.PyDict? ==> ret == ReturnNone && detailPages == old(detailPages) + [arg.entries]
      ensures !arg.PyDict? ==> ret == ReturnNull(TypeError(NotADictMessage)) && detailPages == old(detailPages)
    {
      if !arg.PyDict? {
        return ReturnNull(TypeError(NotADictMessage));
      }
      detailPages := detailPages + [arg.entries];
      return ReturnNone;
    }

    method FinishParsing(arg: PyValue) returns (ret: PyReturn)
      modifies this`parseResults
      ensures arg.PyDict? ==> ret == ReturnNone && parseResults == old(parseResults) + [arg.entries]
      ensures !arg.PyDict? ==> ret == ReturnNull(TypeError(NotADictMessage)) && parseResults == old(parseResults)
    {
      if !arg.PyDict? {
        return ReturnNull(TypeError(NotADictMessage));
      }
      parseResults := parseResults + [arg.entries];
      return ReturnNone;
    }
  }
}
