/**
 * The request manager that hands path requests to the A* search one at a
 * time, in the order they came in, and passes each result back to the
 * requester's callback. Starting the search and calling a callback are
 * recorded as events in a ghost log rather than performed.
 */
module PathRequests {
  import opened Waypoints
  import opened Grids

  /** A world position, in the integer world coordinates the model uses. */
  datatype Position = Position(x: int, z: int)

  /** The identity of a requester's callback. */
  type Callback = nat

  /** `PathRequest`: where the path starts and ends, and whom to answer. */
  datatype PathRequest = PathRequest(pathStart: Position, pathEnd: Position, callback: Callback)

  /**
   * What the manager does to the outside world: it starts a search for a
   * request (`StartFindPath`), or it calls a request's callback with a path
   * and a success flag.
   */
  datatype Event =
    | Dispatched(request: PathRequest)
    | Answered(request: PathRequest, path: seq<Cell>, success: bool)

  /** The requests the log starts searches for, in order. */
  function Dispatches(log: seq<Event>): (r: seq<PathRequest>)
    ensures |r| <= |log|
  {
    if log == [] then []
    else Dispatches(log[..|log| - 1]) + (if log[|log| - 1].Dispatched? then [log[|log| - 1].request] else [])
  }

  /** The requests the log calls back, in order. */
  function Answers(log: seq<Event>): (r: seq<PathRequest>)
    ensures |r| <= |log|
  {
    if log == [] then []
    else Answers(log[..|log| - 1]) + (if log[|log| - 1].Answered? then [log[|log| - 1].request] else [])
  }

  /**
   * The log alternates: a search is started, then that same request is
   * called back, then the next search is started, and so on.
   */
  ghost predicate Alternates(log: seq<Event>)
    decreases |log|
  {
    log == [] ||
    (Alternates(log[..|log| - 1]) &&
     if |log| % 2 == 1 then log[|log| - 1].Dispatched?
     else log[|log| - 1].Answered? && log[|log| - 1].request == log[|log| - 2].request)
  }

  /**
   * In an alternating log every request called back was started, in the same
   * order, and only the last one started may still be waiting for its answer:
   * each started request is answered at most once, and all but the last
   * exactly once.
   */
  lemma {:induction false} AnsweredInOrder(log: seq<Event>)
    requires Alternates(log)
    ensures |Dispatches(log)| == (|log| + 1) / 2 && |Answers(log)| == |log| / 2
    ensures Answers(log) == Dispatches(log)[..|log| / 2]
    ensures |log| % 2 == 1 ==> Dispatches(log)[|log| / 2] == log[|log| - 1].request
    decreases |log|
  {
    if log != [] {
      var init := log[..|log| - 1];
      AnsweredInOrder(init);
      if |log| % 2 == 0 {
        assert init[|init| - 1] == log[|log| - 2];
      }
    }
  }

  class PathRequestManager {
    /** `_pathRequestQueue`: the requests not yet dispatched, front first. */
    var queue: seq<PathRequest>
    /** `_currentPathRequest`: the request dispatched last; `None` before the first dispatch. */
    var currentPathRequest: Option<PathRequest>
    /** `_isProcessingPath`: a search is running for the current request. */
    var isProcessingPath: bool
    /** Everything the manager has done to the outside world, in order. */
    ghost var log: seq<Event>
    /** Every request submitted through `RequestPath`, in order. */
    ghost var submitted: seq<PathRequest>

    /**
     * The manager's invariant: the log alternates, a search is running
     * exactly when the last event started one (for the current request),
     * nothing waits in the queue unless a search is running, and the
     * submitted requests are those dispatched followed by those queued.
     */
    ghost predicate Valid()
      reads this
    {
      Alternates(log) &&
      (isProcessingPath <==> |log| % 2 == 1) &&
      (isProcessingPath ==> currentPathRequest == Some(log[|log| - 1].request)) &&
      (!isProcessingPath ==> queue == []) &&
      submitted == Dispatches(log) + queue
    }

    /** The manager as `Awake` leaves it: nothing queued, nothing running, nothing done. */
    constructor ()
      ensures Valid() && queue == [] && currentPathRequest == None && !isProcessingPath
      ensures log == [] && submitted == []
    {
      queue := [];
      currentPathRequest := None;
      isProcessingPath := false;
      log := [];
      submitted := [];
    }

    /**
     * `RequestPath`: the new request joins the back of the queue, and is
     * dispatched at once when no search is running. While one is running,
     * nothing is dispatched.
     */
    method RequestPath(pathStart: Position, pathEnd: Position, callback: Callback)
      requires Valid()
      modifies this
      ensures Valid()
      ensures submitted == old(submitted) + [PathRequest(pathStart, pathEnd, callback)]
      ensures old(isProcessingPath) ==>
        queue == old(queue) + [PathRequest(pathStart, pathEnd, callback)] && log == old(log) &&
        isProcessingPath && currentPathRequest == old(currentPathRequest)
      ensures !old(isProcessingPath) ==>
        queue == [] && log == old(log) + [Dispatched(PathRequest(pathStart, pathEnd, callback))] &&
        isProcessingPath && currentPathRequest == Some(PathRequest(pathStart, pathEnd, callback))
    {
      var newRequest := PathRequest(pathStart, pathEnd, callback);
      queue := queue + [newRequest];
      submitted := submitted + [newRequest];
      assert submitted == Dispatches(log) + queue;
      TryProcessNext();
    }

    /**
     * `TryProcessNext`: when no search is running and a request waits, the
     * front request becomes the current one and its search is started;
     * otherwise nothing happens.
     */
    method TryProcessNext()
      modifies this
      ensures submitted == old(submitted)
      ensures old(isProcessingPath) || old(queue) == [] ==>
        queue == old(queue) && log == old(log) && isProcessingPath == old(isProcessingPath) &&
        currentPathRequest == old(currentPathRequest)
      ensures !old(isProcessingPath) && old(queue) != [] ==>
        queue == old(queue)[1..] && log == old(log) + [Dispatched(old(queue)[0])] &&
        isProcessingPath && currentPathRequest == Some(old(queue)[0])
    {
      if isProcessingPath || |queue| == 0 {
        return;
      }
      var next := queue[0];
      queue := queue[1..];
      currentPathRequest := Some(next);
      isProcessingPath := true;
      log := log + [Dispatched(next)];
    }

    /**
     * `FinishedProcessingPath`: the current request's callback is called with
     * the path and the success flag, the running flag is cleared and the next
     * queued request, if any, is dispatched. Called for the running search,
     * it keeps the invariant.
     */
    method FinishedProcessingPath(path: seq<Cell>, success: bool)
      requires currentPathRequest.Some?
      modifies this
      ensures submitted == old(submitted)
      ensures old(queue) == [] ==>
        queue == [] && !isProcessingPath && currentPathRequest == old(currentPathRequest) &&
        log == old(log) + [Answered(old(currentPathRequest).value, path, success)]
      ensures old(queue) != [] ==>
        queue == old(queue)[1..] && isProcessingPath && currentPathRequest == Some(old(queue)[0]) &&
        log == old(log) + [Answered(old(currentPathRequest).value, path, success), Dispatched(old(queue)[0])]
      ensures old(Valid()) && old(isProcessingPath) ==> Valid()
    {
      log := log + [Answered(currentPathRequest.value, path, success)];
      isProcessingPath := false;
      TryProcessNext();
    }

    /** With no search running, every submitted request has been called back exactly once, in order. */
    lemma AllAnswered()
      requires Valid() && !isProcessingPath
      ensures Answers(log) == submitted && Dispatches(log) == submitted
    {
      AnsweredInOrder(log);
    }

    /**
     * While a search runs, the requests called back, then the current one,
     * then the queued ones, are exactly the submitted requests in order: at
     * most one request is in flight.
     */
    lemma OneInFlight()
      requires Valid() && isProcessingPath
      ensures submitted == Answers(log) + [currentPathRequest.value] + queue
    {
      AnsweredInOrder(log);
      var d := Dispatches(log);
      assert d == d[..|log| / 2] + [d[|log| / 2]];
    }
  }
}
