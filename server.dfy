/** The Server class (Server.cs) without its listener and threads: the
    table of bound servlets and the URL router, the scheduler's job list
    with its wake handle, one firing step of the scheduler, and Stop. */
module WebServer {
  import opened Wrappers
  import opened Strings
  import opened Routing
  import opened Logging
  import opened JobQueue
  import opened ScheduledJobs

  class Server {
    /** _boundServlets: exact URL to servlet constructor. */
    var bound: map<string, ServletType>
    /** _scheduledJobs, head first. */
    var jobs: seq<ScheduledJob>
    /** _scheduledJobHandle: set wakes the scheduler thread. */
    var signalled: bool
    /** _stop, the event that ends the accept loop. */
    var stopRequested: bool
    /** _stopped. */
    var stopped: bool
    var notFoundServlet: ServletType
    var resourceServlet: ServletType
    var resourceRootUrl: string
    /** Every message raised through LoggedMessage, oldest first. */
    var log: seq<LoggedMessage>

    /** No job object is queued twice. */
    ghost predicate Valid()
      reads this
    {
      Distinct(jobs)
    }

    /** A new server: resource root "/res", the default error and resource
        servlets, and "/favicon.ico" bound to the resource servlet
        (Server.cs:49-67). */
    constructor ()
      ensures Valid()
      ensures bound == map["/favicon.ico" := DefaultResourceServlet]
      ensures resourceRootUrl == "/res"
      ensures notFoundServlet == DefaultErrorServlet && resourceServlet == DefaultResourceServlet
      ensures jobs == [] && !signalled && !stopRequested && !stopped && log == []
    {
      bound := map[];
      jobs := [];
      signalled := false;
      stopRequested := false;
      stopped := false;
      resourceRootUrl := "/res";
      notFoundServlet := DefaultErrorServlet;
      resourceServlet := DefaultResourceServlet;
      log := [];
      new;
      var ok := BindServletToUrl(DefaultResourceServlet, "/favicon.ico");
    }

    /** Dictionary.Add: binding a URL that is already bound fails and leaves
        the table as it was (Server.cs:135-144). */
    method BindServletToUrl(servlet: ServletType, url: string) returns (ok: bool)
      modifies this`bound
      ensures ok <==> url !in old(bound)
      ensures ok ==> bound == old(bound)[url := servlet]
      ensures !ok ==> bound == old(bound)
    {
      if url in bound {
        return false;
      }
      bound := bound[url := servlet];
      return true;
    }

    /** The servlet for a request URL: the query is dropped, then each
        candidate is looked up in the bound URLs and then compared with the
        resource root, and cut at its last '/' until one matches or it is
        empty (Server.cs:162-184). */
    method CreateServlet(url: string) returns (servlet: ServletType)
      ensures servlet == Resolve(bound, resourceRootUrl, notFoundServlet, resourceServlet, url)
    {
      var u := url;
      var queryStart := IndexOf(u, '?');
      if queryStart != -1 {
        u := u[..queryStart];
      }
      var ctor := if resourceRootUrl == "/" then resourceServlet else notFoundServlet;
      while true
        invariant FirstMatch(Candidates(u), bound, resourceRootUrl, resourceServlet, ctor)
                  == Resolve(bound, resourceRootUrl, notFoundServlet, resourceServlet, url)
        decreases |u|
      {
        if u in bound {
          ctor := bound[u];
          break;
        } else if u == resourceRootUrl {
          ctor := resourceServlet;
          break;
        }
        var divider := LastIndexOf(u, '/');
        var next := u[..if divider == -1 then 0 else divider];
        assert next == Cut(u);
        u := next;
        if |u| == 0 {
          break;
        }
      }
      servlet := ctor;
    }

    /** Inserts a job before the first queued job that is strictly later,
        or at the front when there is none, and sets the wake handle when
        the walk never advanced (Server.cs:196-218). */
    method ScheduleJob(job: ScheduledJob)
      requires Valid() && job !in jobs
      modifies this`jobs, this`signalled
      ensures Valid()
      ensures jobs == InsertAt(old(jobs), WrittenIndex(old(Times(jobs)), job.nextTime), job)
      ensures signalled == (old(signalled) || Wakes(old(Times(jobs)), job.nextTime))
    {
      ghost var ts := Times(jobs);
      var i := 0;
      var first := true;
      while i < |jobs|
        invariant 0 <= i <= |jobs|
        invariant first <==> i == 0
        invariant forall k :: 0 <= k < i ==> ts[k] <= job.nextTime
      {
        if jobs[i].nextTime <= job.nextTime {
          i := i + 1;
          first := false;
          continue;
        }
        assert i == FirstLater(ts, job.nextTime);
        DistinctInsert(jobs, i, job);
        jobs := jobs[..i] + [job] + jobs[i..];
        if first {
          signalled := true;
        }
        return;
      }
      assert FirstLater(ts, job.nextTime) == |ts|;
      DistinctInsert(jobs, 0, job);
      jobs := [job] + jobs;
      if first {
        signalled := true;
      }
    }

    /** ScheduleJob(ident, nextTime, interval, job) (Server.cs:191-194). */
    method ScheduleJobAt(ident: string, nextTime: int, interval: int, action: JobAction)
      returns (job: ScheduledJob)
      requires Valid()
      modifies this`jobs, this`signalled
      ensures Valid() && fresh(job) && !job.cancelled
      ensures job.identifier == ident && job.nextTime == nextTime && job.interval == interval
      ensures job.action == action
      ensures jobs == InsertAt(old(jobs), WrittenIndex(old(Times(jobs)), nextTime), job)
      ensures signalled == (old(signalled) || Wakes(old(Times(jobs)), nextTime))
    {
      job := new ScheduledJob(ident, nextTime, interval, action);
      ScheduleJob(job);
    }

    /** ScheduleJob(ident, after, job): a one-shot job due `after` ticks
        from `now` (Server.cs:186-189). */
    method ScheduleJobAfter(ident: string, now: int, after: int, action: JobAction)
      returns (job: ScheduledJob)
      requires Valid()
      modifies this`jobs, this`signalled
      ensures Valid() && fresh(job) && !job.cancelled
      ensures job.identifier == ident && job.action == action
      ensures job.OnceOnly() && job.nextTime == now + after
      ensures jobs == InsertAt(old(jobs), WrittenIndex(old(Times(jobs)), now + after), job)
      ensures signalled == (old(signalled) || Wakes(old(Times(jobs)), now + after))
    {
      job := ScheduleJobAt(ident, now + after, 0, action);
    }

    /** The locked step of the scheduler thread: if the head job is due at
        `checkTime` it is removed and performed at `fireTime`, and put back
        through ScheduleJob unless it was cancelled; otherwise nothing
        changes (Server.cs:234-242). */
    method RunDueJob(checkTime: int, fireTime: int, outcome: ActionOutcome) returns (fired: bool)
      requires Valid()
      modifies this`jobs, this`log, this`signalled, (if jobs == [] then {} else {jobs[0]})`nextTime
      ensures Valid()
      ensures fired <==> old(jobs) != [] && old(jobs[0].ShouldPerform(checkTime))
      ensures !fired ==> jobs == old(jobs) && log == old(log) && signalled == old(signalled)
      ensures !fired ==> Times(jobs) == old(Times(jobs))
      ensures fired ==> forall j :: j in old(jobs[1..]) ==> j.nextTime == old(j.nextTime)
      ensures forall j :: j in old(jobs) ==> j.cancelled == old(j.cancelled)
      ensures bound == old(bound) && stopped == old(stopped) && stopRequested == old(stopRequested)
      ensures resourceRootUrl == old(resourceRootUrl)
      ensures notFoundServlet == old(notFoundServlet) && resourceServlet == old(resourceServlet)
      ensures old(jobs) != [] && fired ==> old(jobs[0]).nextTime == NextTimeAfter(old(jobs[0]).interval, fireTime)
      ensures old(jobs) != [] && fired ==> log == old(log) + PerformLog(old(jobs[0]).identifier, outcome)
      ensures old(jobs) != [] && fired && old(jobs[0]).cancelled ==> jobs == old(jobs[1..]) && signalled == old(signalled)
      ensures old(jobs) != [] && fired && !old(jobs[0]).cancelled ==>
                jobs == InsertAt(old(jobs[1..]), WrittenIndex(old(Times(jobs[1..])), old(jobs[0]).nextTime), old(jobs[0]))
                && signalled == (old(signalled) || Wakes(old(Times(jobs[1..])), old(jobs[0]).nextTime))
    {
      if jobs == [] || !jobs[0].ShouldPerform(checkTime) {
        return false;
      }
      var first := PerformHead(fireTime, outcome);
      if !first.cancelled {
        ScheduleJob(first);
      }
      fired := true;
    }

    /** Pops the head job and performs it: the job leaves the list, its fire
        time moves forward and its messages are logged (Server.cs:237-238). */
    method PerformHead(fireTime: int, outcome: ActionOutcome) returns (first: ScheduledJob)
      requires Valid() && jobs != []
      modifies this`jobs, this`log, {jobs[0]}`nextTime
      ensures Valid() && first !in jobs
      ensures first == old(jobs[0]) && jobs == old(jobs[1..]) && Times(jobs) == old(Times(jobs[1..]))
      ensures first.nextTime == NextTimeAfter(first.interval, fireTime)
      ensures log == old(log) + PerformLog(first.identifier, outcome)
    {
      first := PopHead();
      ghost var restTimes := Times(jobs);
      assert restTimes == old(Times(jobs[1..]));
      var messages := first.Perform(fireTime, outcome);
      assert Times(jobs) == restTimes by {
        assert forall i :: 0 <= i < |jobs| ==> jobs[i] != first;
      }
      log := log + messages;
    }

    /** RemoveFirst on the job list: the head leaves the list and is no
        longer queued (Server.cs:237). */
    method PopHead() returns (first: ScheduledJob)
      requires Valid() && jobs != []
      modifies this`jobs
      ensures Valid()
      ensures first == old(jobs[0]) && jobs == old(jobs[1..]) && first !in jobs
    {
      DistinctTail(jobs);
      first := jobs[0];
      jobs := jobs[1..];
    }

    /** Sets the stop flags and cancels every queued job; the jobs stay
        queued (Server.cs:289-297). */
    method Stop()
      modifies this`stopped, this`stopRequested, set j | j in jobs
      ensures stopped && stopRequested
      ensures forall j :: j in jobs ==> j.cancelled && j.nextTime == old(j.nextTime)
    {
      stopped := true;
      stopRequested := true;
      for i := 0 to |jobs|
        invariant stopped && stopRequested
        invariant forall k :: 0 <= k < i ==> jobs[k].cancelled
        invariant forall j :: j in jobs ==> j.nextTime == old(j.nextTime)
      {
        jobs[i].Cancel();
      }
    }
  }
}
