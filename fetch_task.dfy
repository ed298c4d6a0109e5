/**
  The single-flight fetch task (GetUrl) as a pure state machine. A Task is the slot
  (callback, data, current reply, timer), the published moonplayer.final_url, and the
  onFinished activations still waiting for their callback to return or for their modal
  warning box to be closed. Every transition
  yields the new Task and the effects it has on the world, in order: references taken
  and dropped on Python objects, requests handed to the network client, warning boxes,
  and calls of the Python callback.
*/
module FetchTask {
  import opened Wrappers
  import opened PyObjects
  import QtStrings

  /** The single-shot timeout armed by start, in milliseconds. */
  const TimeoutMs: int := 10000
  const FormContentType: string := "application/x-www-form-urlencoded"

  datatype Verb = Get | Post

  /** A request handed to the network client; `referer` and `contentType` are the headers set. */
  datatype Request = Request(verb: Verb, url: string, referer: Option<string>, contentType: Option<string>, body: string)

  /** QNetworkReply::NetworkError, as far as the task distinguishes it. */
  datatype NetError = NoError | OperationCanceled | OtherError(code: nat)

  /** A finished reply: HTTP status attribute (0 if none), Location header, error, error text, body. */
  datatype Reply = Reply(status: int, location: string, error: NetError, errorText: string, body: string)

  datatype Timer = Stopped | Armed(ms: int)

  datatype Effect =
    | Acquire(obj: PyObj)                               // Py_IncRef
    | Release(obj: PyObj)                               // Py_DecRef
    | Send(request: Request)                            // access_manager->get / post
    | WarnUser(text: string)                            // QMessageBox::warning "Error"
    | Invoke(callback: PyObj, body: string, data: PyObj) // callback(body, data)
    | ReportCallbackError                               // printPythonException

  /** What a suspended onFinished activation is waiting for: the callback it called, or the modal warning box it opened. */
  datatype Pending = InCallback | InWarning

  /** An onFinished activation suspended after freeing the slot, still owing two releases. */
  datatype Frame = Frame(callback: PyObj, data: PyObj, pending: Pending)

  datatype Task = Task(
    callback: Option<PyObj>,
    data: Option<PyObj>,
    reply: Option<Request>,
    timer: Timer,
    finalUrl: string,
    suspended: seq<Frame>)

  datatype Step = Step(task: Task, effects: seq<Effect>)

  /** A freshly constructed GetUrl, with final_url initialised to "". */
  const Idle: Task := Task(None, None, None, Stopped, "", [])

  /** hasTask(): a callback is held. */
  predicate HasTask(t: Task) {
    t.callback.Some?
  }

  /** Callback and data are held together, a held task has a reply, and the timer runs only while a task is held. */
  predicate Wf(t: Task) {
    && (t.callback.Some? <==> t.data.Some?)
    && (HasTask(t) ==> t.reply.Some?)
    && (t.timer.Armed? ==> HasTask(t))
  }

  predicate IsRedirect(status: int) {
    status == 301 || status == 302
  }

  /** The request start builds: a Referer header only for a non-empty referer; POST with a form content type only for non-empty post data. */
  function MakeRequest(url: string, referer: string, postData: string): Request {
    var ref := if referer == "" then None else Some(referer);
    if postData == "" then Request(Get, url, ref, None, "")
    else Request(Post, url, ref, Some(FormContentType), postData)
  }

  /** POST with the form content type exactly for non-empty post data, otherwise a GET without a body;
      a Referer header exactly for a non-empty referer; always to the url given. */
  lemma RequestKinds(url: string, referer: string, postData: string)
    ensures var req := MakeRequest(url, referer, postData);
      && req.url == url && req.body == postData
      && (req.verb == Post <==> postData != "")
      && (req.contentType == Some(FormContentType) <==> postData != "")
      && (req.contentType.None? <==> postData == "")
      && (req.referer == Some(referer) <==> referer != "")
      && (req.referer.None? <==> referer == "")
  {
  }

  /** The plain GET reissued to a redirect target: no referer, no body. */
  function RedirectRequest(location: string): Request {
    Request(Get, location, None, None, "")
  }

  /** The warning text; the error string goes through a `%s` conversion, so it ends at its first NUL. */
  function NetworkErrorText(r: Reply): string {
    "Network Error: " + QtStrings.IntToString(r.status) + "\n" + QtStrings.CString(r.errorText) + "\n"
  }

  /** GetUrl::start. */
  function Start(t: Task, url: string, callback: PyObj, data: PyObj, referer: string, postData: string): (s: Step)
    requires Wf(t) && !HasTask(t)
    ensures Wf(s.task) && HasTask(s.task)
    ensures s.task.callback == Some(callback) && s.task.data == Some(data)
    ensures s.task.timer == Armed(TimeoutMs) && s.task.finalUrl == url
    ensures s.task.reply == Some(MakeRequest(url, referer, postData))
    ensures s.task.suspended == t.suspended
    ensures s.effects == [Acquire(callback), Acquire(data), Send(MakeRequest(url, referer, postData))]
  {
    var req := MakeRequest(url, referer, postData);
    Step(t.(callback := Some(callback), data := Some(data), reply := Some(req), timer := Armed(TimeoutMs), finalUrl := url),
         [Acquire(callback), Acquire(data), Send(req)])
  }

  /**
    GetUrl::onFinished: the status is looked at before the error. The Location header and
    the body reach Python as C strings, so each ends at its first NUL. Both the warning box
    and the callback run before the two references are dropped, and both spin the event
    loop with the slot already free, so the activation is suspended in a frame.
  */
  function Finish(t: Task, r: Reply): (s: Step)
    requires Wf(t) && HasTask(t)
    ensures Wf(s.task)
  {
    if IsRedirect(r.status) then
      var location := QtStrings.CString(r.location);
      var req := RedirectRequest(location);
      Step(t.(reply := Some(req), timer := Stopped, finalUrl := location), [Send(req)])
    else
      var cb := t.callback.value;
      var d := t.data.value;
      var cleared := t.(callback := None, data := None, timer := Stopped);
      if r.error != NoError then
        Step(cleared.(suspended := t.suspended + [Frame(cb, d, InWarning)]), [WarnUser(NetworkErrorText(r))])
      else
        Step(cleared.(suspended := t.suspended + [Frame(cb, d, InCallback)]), [Invoke(cb, QtStrings.CString(r.body), d)])
  }

  /** GetUrl::onTimeOut: the timer has fired; abort() finishes the reply at once with OperationCanceled. */
  function TimeOut(t: Task, r: Reply): (s: Step)
    requires Wf(t) && t.timer.Armed?
    ensures Wf(s.task)
  {
    Finish(t.(timer := Stopped), r.(error := OperationCanceled))
  }

  /** The callback called by the innermost suspended onFinished has returned: data and callback are released, then a failure is reported. */
  function CallbackReturned(t: Task, failed: bool): (s: Step)
    requires Wf(t) && |t.suspended| > 0 && t.suspended[|t.suspended| - 1].pending == InCallback
    ensures Wf(s.task)
  {
    var f := t.suspended[|t.suspended| - 1];
    Step(t.(suspended := t.suspended[..|t.suspended| - 1]),
         [Release(f.data), Release(f.callback)] + (if failed then [ReportCallbackError] else []))
  }

  /** The warning box opened by the innermost suspended onFinished has been closed: data and callback are released. */
  function WarningClosed(t: Task): (s: Step)
    requires Wf(t) && |t.suspended| > 0 && t.suspended[|t.suspended| - 1].pending == InWarning
    ensures Wf(s.task)
  {
    var f := t.suspended[|t.suspended| - 1];
    Step(t.(suspended := t.suspended[..|t.suspended| - 1]), [Release(f.data), Release(f.callback)])
  }

  // ---------------------------------------------------------------------------
  // Reference-count discipline

  function Delta(e: Effect, o: PyObj): int {
    match e
    case Acquire(x) => if x == o then 1 else 0
    case Release(x) => if x == o then -1 else 0
    case _ => 0
  }

  /** References to `o` taken minus references dropped along `effects`. */
  function Net(effects: seq<Effect>, o: PyObj): int {
    if effects == [] then 0 else Net(effects[..|effects| - 1], o) + Delta(effects[|effects| - 1], o)
  }

  function Holds(slot: Option<PyObj>, o: PyObj): nat {
    if slot == Some(o) then 1 else 0
  }

  function FrameCount(fs: seq<Frame>, o: PyObj): nat {
    if fs == [] then 0
    else FrameCount(fs[..|fs| - 1], o) + Holds(Some(fs[|fs| - 1].callback), o) + Holds(Some(fs[|fs| - 1].data), o)
  }

  /** The references the task owns on `o`: one per slot holding it, two per field of a suspended frame. */
  function Owed(t: Task, o: PyObj): nat {
    Holds(t.callback, o) + Holds(t.data, o) + FrameCount(t.suspended, o)
  }

  /** Every reference the effects took is still owed by the task, and nothing more was dropped. */
  ghost predicate Balanced(t: Task, trace: seq<Effect>) {
    forall o :: Net(trace, o) == Owed(t, o)
  }

  lemma {:induction false} NetAppend(a: seq<Effect>, b: seq<Effect>, o: PyObj)
    ensures Net(a + b, o) == Net(a, o) + Net(b, o)
    decreases |b|
  {
    if b == [] {
      assert a + b == a;
    } else {
      assert (a + b)[..|a + b| - 1] == a + b[..|b| - 1];
      assert (a + b)[|a + b| - 1] == b[|b| - 1];
      NetAppend(a, b[..|b| - 1], o);
    }
  }

  lemma NetOfOne(e1: Effect, o: PyObj)
    ensures Net([e1], o) == Delta(e1, o)
  {
    assert [e1][..0] == [];
  }

  lemma NetOfTwo(e1: Effect, e2: Effect, o: PyObj)
    ensures Net([e1, e2], o) == Delta(e1, o) + Delta(e2, o)
  {
    assert [e1, e2][..1] == [e1];
    NetOfOne(e1, o);
  }

  lemma NetOfThree(e1: Effect, e2: Effect, e3: Effect, o: PyObj)
    ensures Net([e1, e2, e3], o) == Delta(e1, o) + Delta(e2, o) + Delta(e3, o)
  {
    assert [e1, e2, e3][..2] == [e1, e2];
    NetOfTwo(e1, e2, o);
  }

  /** The idle task owes nothing on the empty trace. */
  lemma IdleBalanced()
    ensures Balanced(Idle, [])
  {
  }

  /** start takes exactly one reference each on callback and data, and the task then owes them. */
  lemma StartBalanced(t: Task, trace: seq<Effect>, url: string, callback: PyObj, data: PyObj, referer: string, postData: string)
    requires Wf(t) && !HasTask(t) && Balanced(t, trace)
    ensures var s := Start(t, url, callback, data, referer, postData);
      Balanced(s.task, trace + s.effects)
  {
    var s := Start(t, url, callback, data, referer, postData);
    forall o ensures Net(trace + s.effects, o) == Owed(s.task, o) {
      NetAppend(trace, s.effects, o);
      NetOfThree(s.effects[0], s.effects[1], s.effects[2], o);
    }
  }

  /** onFinished keeps the books: a redirect keeps both references, an error or a success moves them to a suspended frame. */
  lemma FinishBalanced(t: Task, trace: seq<Effect>, r: Reply)
    requires Wf(t) && HasTask(t) && Balanced(t, trace)
    ensures var s := Finish(t, r);
      Balanced(s.task, trace + s.effects)
  {
    if IsRedirect(r.status) {
      RedirectBalanced(t, trace, r);
    } else if r.error != NoError {
      ErrorBalanced(t, trace, r);
    } else {
      SuccessBalanced(t, trace, r);
    }
  }

  lemma RedirectBalanced(t: Task, trace: seq<Effect>, r: Reply)
    requires Wf(t) && HasTask(t) && Balanced(t, trace) && IsRedirect(r.status)
    ensures var s := Finish(t, r);
      Balanced(s.task, trace + s.effects)
  {
    var s := Finish(t, r);
    forall o ensures Net(trace + s.effects, o) == Owed(s.task, o) {
      NetAppend(trace, s.effects, o);
      NetOfOne(s.effects[0], o);
    }
  }

  lemma ErrorBalanced(t: Task, trace: seq<Effect>, r: Reply)
    requires Wf(t) && HasTask(t) && Balanced(t, trace) && !IsRedirect(r.status) && r.error != NoError
    ensures var s := Finish(t, r);
      Balanced(s.task, trace + s.effects)
  {
    var s := Finish(t, r);
    var fs := t.suspended + [Frame(t.callback.value, t.data.value, InWarning)];
    assert fs[..|fs| - 1] == t.suspended;
    forall o ensures Net(trace + s.effects, o) == Owed(s.task, o) {
      NetAppend(trace, s.effects, o);
      NetOfOne(s.effects[0], o);
    }
  }

  lemma SuccessBalanced(t: Task, trace: seq<Effect>, r: Reply)
    requires Wf(t) && HasTask(t) && Balanced(t, trace) && !IsRedirect(r.status) && r.error == NoError
    ensures var s := Finish(t, r);
      Balanced(s.task, trace + s.effects)
  {
    var s := Finish(t, r);
    var fs := t.suspended + [Frame(t.callback.value, t.data.value, InCallback)];
    assert fs[..|fs| - 1] == t.suspended;
    forall o ensures Net(trace + s.effects, o) == Owed(s.task, o) {
      NetAppend(trace, s.effects, o);
      NetOfOne(s.effects[0], o);
    }
  }

  lemma TimeOutBalanced(t: Task, trace: seq<Effect>, r: Reply)
    requires Wf(t) && t.timer.Armed? && Balanced(t, trace)
    ensures var s := TimeOut(t, r);
      Balanced(s.task, trace + s.effects)
  {
    var t' := t.(timer := Stopped);
    assert forall o :: Owed(t', o) == Owed(t, o);
    FinishBalanced(t', trace, r.(error := OperationCanceled));
  }

  /** When the callback returns, the frame's two references are dropped exactly once. */
  lemma CallbackReturnedBalanced(t: Task, trace: seq<Effect>, failed: bool)
    requires Wf(t) && |t.suspended| > 0 && t.suspended[|t.suspended| - 1].pending == InCallback && Balanced(t, trace)
    ensures var s := CallbackReturned(t, failed);
      Balanced(s.task, trace + s.effects)
  {
    var s := CallbackReturned(t, failed);
    var f := t.suspended[|t.suspended| - 1];
    forall o ensures Net(trace + s.effects, o) == Owed(s.task, o) {
      NetAppend(trace, s.effects, o);
      assert FrameCount(t.suspended, o) == FrameCount(s.task.suspended, o) + Holds(Some(f.callback), o) + Holds(Some(f.data), o);
      if failed {
        assert s.effects == [Release(f.data), Release(f.callback), ReportCallbackError];
        NetOfThree(Release(f.data), Release(f.callback), ReportCallbackError, o);
      } else {
        assert s.effects == [Release(f.data), Release(f.callback)];
        NetOfTwo(Release(f.data), Release(f.callback), o);
      }
    }
  }

  /** When the warning box is closed, the frame's two references are dropped exactly once. */
  lemma WarningClosedBalanced(t: Task, trace: seq<Effect>)
    requires Wf(t) && |t.suspended| > 0 && t.suspended[|t.suspended| - 1].pending == InWarning && Balanced(t, trace)
    ensures var s := WarningClosed(t);
      Balanced(s.task, trace + s.effects)
  {
    var s := WarningClosed(t);
    var f := t.suspended[|t.suspended| - 1];
    forall o ensures Net(trace + s.effects, o) == Owed(s.task, o) {
      NetAppend(trace, s.effects, o);
      assert FrameCount(t.suspended, o) == FrameCount(s.task.suspended, o) + Holds(Some(f.callback), o) + Holds(Some(f.data), o);
      NetOfTwo(Release(f.data), Release(f.callback), o);
    }
  }

  /** A balanced trace never drops more references than it took, and once the task is idle with no callback running and no warning box open, every reference taken has been dropped. */
  lemma BalancedReleasesAll(t: Task, trace: seq<Effect>, o: PyObj)
    requires Balanced(t, trace)
    ensures Net(trace, o) >= 0
    ensures !HasTask(t) && t.data == None && t.suspended == [] ==> Net(trace, o) == 0
  {
  }

  // ---------------------------------------------------------------------------
  // Runs of replies

  /** Delivers the finished replies in order; once no task is held there is no live reply left to finish. */
  function Run(t: Task, replies: seq<Reply>): (s: Step)
    requires Wf(t)
    ensures Wf(s.task)
    decreases |replies|
  {
    if replies == [] || !HasTask(t) then Step(t, [])
    else
      var first := Finish(t, replies[0]);
      var rest := Run(first.task, replies[1..]);
      Step(rest.task, first.effects + rest.effects)
  }

  function RedirectSends(hops: seq<Reply>): seq<Effect> {
    if hops == [] then [] else [Send(RedirectRequest(QtStrings.CString(hops[0].location)))] + RedirectSends(hops[1..])
  }

  /**
    A chain of redirects followed by a final reply: each hop reissues a plain GET to its
    Location and publishes it as final_url; the final reply frees the slot, suspends the
    activation with both references, and then either calls the callback exactly once with
    the final body up to its first NUL (success) or opens the warning box without calling it
    (error).
  */
  lemma {:induction false} RedirectChain(t: Task, hops: seq<Reply>, last: Reply)
    requires Wf(t) && HasTask(t)
    requires forall i :: 0 <= i < |hops| ==> IsRedirect(hops[i].status)
    requires !IsRedirect(last.status)
    ensures var s := Run(t, hops + [last]);
      && !HasTask(s.task) && s.task.timer == Stopped && s.task.data == None
      && s.task.finalUrl == (if hops == [] then t.finalUrl else QtStrings.CString(hops[|hops| - 1].location))
      && (last.error == NoError ==>
            s.effects == RedirectSends(hops) + [Invoke(t.callback.value, QtStrings.CString(last.body), t.data.value)]
            && s.task.suspended == t.suspended + [Frame(t.callback.value, t.data.value, InCallback)])
      && (last.error != NoError ==>
            s.effects == RedirectSends(hops) + [WarnUser(NetworkErrorText(last))]
            && s.task.suspended == t.suspended + [Frame(t.callback.value, t.data.value, InWarning)])
    decreases |hops|
  {
    RunOfHops(t, hops, last);
    AfterHopsKeepsSlot(t, hops);
  }

  /** The task after a run of redirect hops: the same slot, now waiting on the last hop's request. */
  function AfterHops(t: Task, hops: seq<Reply>): Task
    decreases |hops|
  {
    if hops == [] then t
    else
      var location := QtStrings.CString(hops[0].location);
      AfterHops(t.(reply := Some(RedirectRequest(location)), timer := Stopped, finalUrl := location), hops[1..])
  }

  /** Redirect hops keep callback, data and frames, stop the timer and publish the last Location. */
  lemma {:induction false} AfterHopsKeepsSlot(t: Task, hops: seq<Reply>)
    requires Wf(t) && HasTask(t)
    ensures var u := AfterHops(t, hops);
      && Wf(u) && HasTask(u)
      && u.callback == t.callback && u.data == t.data && u.suspended == t.suspended
      && (hops == [] ==> u == t)
      && (hops != [] ==> u.timer == Stopped && u.finalUrl == QtStrings.CString(hops[|hops| - 1].location))
    decreases |hops|
  {
    if hops != [] {
      var location := QtStrings.CString(hops[0].location);
      AfterHopsKeepsSlot(t.(reply := Some(RedirectRequest(location)), timer := Stopped, finalUrl := location), hops[1..]);
      if |hops| > 1 {
        assert hops[1..][|hops| - 2] == hops[|hops| - 1];
      }
    }
  }

  /** Running redirect hops and then a last reply: the hops' requests, then the last reply finished on the hopped task. */
  lemma {:induction false} RunOfHops(t: Task, hops: seq<Reply>, last: Reply)
    requires Wf(t) && HasTask(t)
    requires forall i :: 0 <= i < |hops| ==> IsRedirect(hops[i].status)
    ensures AfterHops(t, hops).callback.Some?
    ensures Wf(AfterHops(t, hops))
    ensures var u := AfterHops(t, hops);
      Run(t, hops + [last]) == Step(Finish(u, last).task, RedirectSends(hops) + Finish(u, last).effects)
    decreases |hops|
  {
    var rs := hops + [last];
    AfterHopsKeepsSlot(t, hops);
    if hops == [] {
      assert rs[1..] == [];
      assert Finish(t, last).effects + [] == Finish(t, last).effects;
    } else {
      var first := Finish(t, hops[0]);
      assert rs[0] == hops[0] && rs[1..] == hops[1..] + [last];
      RunOfHops(first.task, hops[1..], last);
      var u := AfterHops(t, hops);
      var f := Finish(u, last);
      assert [Send(RedirectRequest(QtStrings.CString(hops[0].location)))] + (RedirectSends(hops[1..]) + f.effects)
          == RedirectSends(hops) + f.effects;
    }
  }

  /** A redirect stops the timer and does not re-arm it, so the new hop can never time out. */
  lemma RedirectHopHasNoTimeout(t: Task, r: Reply)
    requires Wf(t) && HasTask(t) && IsRedirect(r.status)
    ensures HasTask(Finish(t, r).task) && !Finish(t, r).task.timer.Armed?
  {
  }

  /** A network error never calls the callback; a success calls it exactly once, with the slot already free. */
  lemma CallbackOnlyOnSuccess(t: Task, r: Reply)
    requires Wf(t) && HasTask(t) && !IsRedirect(r.status)
    ensures var s := Finish(t, r);
      && !HasTask(s.task)
      && (forall e :: e in s.effects ==> !e.Invoke?) == (r.error != NoError)
  {
    var s := Finish(t, r);
    if r.error == NoError {
      assert s.effects[0].Invoke?;
    }
  }

  /** The callback sees the body only up to its first NUL: a body "ab", NUL, "cd" arrives as "ab". */
  lemma BodyEndsAtNul(t: Task, r: Reply)
    requires Wf(t) && HasTask(t) && !IsRedirect(r.status) && r.error == NoError
    requires r.body == ['a', 'b', '\0', 'c', 'd']
    ensures Finish(t, r).effects == [Invoke(t.callback.value, "ab", t.data.value)]
  {
    var c := QtStrings.CString(r.body);
    assert c == r.body[..2] == "ab";
  }

  /** While the warning box of a failed fetch is open, the slot is already free, so a new fetch can start. */
  lemma StartDuringWarning(t: Task, r: Reply, url: string, callback: PyObj, data: PyObj, referer: string, postData: string)
    requires Wf(t) && HasTask(t) && !IsRedirect(r.status) && r.error != NoError
    ensures var s := Finish(t, r);
      && !HasTask(s.task) && s.task.suspended[|s.task.suspended| - 1].pending == InWarning
      && HasTask(Start(s.task, url, callback, data, referer, postData).task)
  {
  }
}
