/**
 * The entry point `main()`: it routes the event, reads the pull request,
 * fetches one diff, drops the excluded files, hands the rest to the analysis
 * and, for a pull request only, posts the comments it got back when there
 * are any. Every outside call is a parameter. Each call is made at most
 * once and always in that order, so a run is recorded as the calls it got
 * to, with their arguments, and how it ended.
 */
module Review {
  import opened Wrappers
  import opened Exclusion
  import opened Events

  /** A review comment produced by the analysis, ready for posting. */
  datatype Comment = Comment(path: string, line: int, body: string)

  /** `pulls.get(owner, repo, pull_number)`. */
  datatype PullRead = PullRead(owner: string, repo: string, pullNumber: int)

  /** The diff requested: the whole pull request (`pulls.get` in diff format), or `repos.compareCommits`. */
  datatype DiffRequest =
    | PullDiff(owner: string, repo: string, pullNumber: int)
    | Compare(owner: string, repo: string, base: string, head: string)

  /** `analyzeCode(files, details)`. */
  datatype Analysis = Analysis(files: seq<DiffFile>, details: PRDetails)

  /** `createReviewComment(owner, repo, pull_number, comments)`. */
  datatype ReviewPost = ReviewPost(owner: string, repo: string, pullNumber: int, comments: seq<Comment>)

  /**
   * What the outside world answers. The diff parser and the glob matcher are
   * external libraries; the rest are awaited calls, each of which may throw.
   */
  datatype Services = Services(
    pullInfo: (string, string, int) -> Result<PullInfo>,
    pullDiff: (string, string, int) -> Result<string>,
    compareCommits: (string, string, string, string) -> Result<string>,
    parseDiff: string -> seq<DiffFile>,
    matches: Matcher,
    analyze: (seq<DiffFile>, PRDetails) -> Result<seq<Comment>>,
    postReview: (string, string, int, seq<Comment>) -> Result<()>)
  {
    function ReadPull(p: PullRead): Result<PullInfo> {
      pullInfo(p.owner, p.repo, p.pullNumber)
    }

    /** The diff text a request is answered with. */
    function Fetch(d: DiffRequest): Result<string> {
      match d
      case PullDiff(o, r, n) => pullDiff(o, r, n)
      case Compare(o, r, b, h) => compareCommits(o, r, b, h)
    }

    function Analyse(a: Analysis): Result<seq<Comment>> {
      analyze(a.files, a.details)
    }

    function Post(p: ReviewPost): Result<()> {
      postReview(p.owner, p.repo, p.pullNumber, p.comments)
    }
  }

  /** How a run ended without failing. */
  datatype StopReason =
    | UnsupportedPullAction(action: Option<string>)   // "Unsupported pull_request action"
    | UnsupportedEventType(eventName: Option<string>)  // "Unsupported event type"
    | NoDiffInPull                                     // "No diff found in PR"
    | NoDiffInPush                                     // "No diff found in push"

  datatype Outcome =
    | Failed(error: RunError)             // the promise rejected: `core.setFailed(error.message)`
    | Stopped(reason: StopReason)         // a clean early return
    | Completed(comments: seq<Comment>)   // ran to the end with the analysis' comments

  /** The calls a run got to, in the order it makes them, and how it ended. */
  datatype RunResult = RunResult(
    outcome: Outcome,
    pullRead: Option<PullRead>,
    diffRequest: Option<DiffRequest>,
    analysis: Option<Analysis>,
    post: Option<ReviewPost>)

  /** The failure message of a call's answer, if it failed. */
  function ErrorOf<T>(answer: Result<T>): Option<string> {
    if answer.Failure? then Some(answer.message) else None
  }

  /** How the last call the run got to answered, if that call threw. */
  function LastCallFailure(r: RunResult, svc: Services): Option<string> {
    if r.post.Some? then ErrorOf(svc.Post(r.post.value))
    else if r.analysis.Some? then ErrorOf(svc.Analyse(r.analysis.value))
    else if r.diffRequest.Some? then ErrorOf(svc.Fetch(r.diffRequest.value))
    else if r.pullRead.Some? then ErrorOf(svc.ReadPull(r.pullRead.value))
    else None
  }

  /**
   * The rules every run keeps: each call is made exactly when the one before
   * it succeeded; the run fails with a call's message exactly when that call,
   * the last one made, threw; an empty diff ends it cleanly and a non-empty one
   * is analysed; the analysis gets the files of the fetched diff that the
   * exclude patterns leave; comments are posted only when the analysis
   * returned some; and a run whose calls all succeeded completes with the
   * analysis' comments.
   */
  predicate WellFormedRun(r: RunResult, svc: Services, excludeInput: string, noDiff: StopReason) {
    // failing with a call's message happens exactly when the last call made threw it
    && (LastCallFailure(r, svc).Some? ==> r.outcome == Failed(ServiceError(LastCallFailure(r, svc).value)))
    && (r.outcome.Failed? && r.outcome.error.ServiceError? ==> LastCallFailure(r, svc) == Some(r.outcome.error.message))
    // a pull request that cannot be read ends the run
    && (r.pullRead.Some? && svc.ReadPull(r.pullRead.value).Failure? ==> r.diffRequest == None)
    // the diff is fetched only after the pull request, when there is one, was read
    && (r.diffRequest.Some? && r.pullRead.Some? ==> svc.ReadPull(r.pullRead.value).Success?)
    // an empty diff, and only an empty diff, ends the run cleanly; any other diff is analysed
    && (r.diffRequest.Some? && svc.Fetch(r.diffRequest.value) == Success("") ==>
          r.outcome == Stopped(noDiff) && r.analysis == None)
    && (r.outcome == Stopped(noDiff) ==> r.diffRequest.Some? && svc.Fetch(r.diffRequest.value) == Success(""))
    && (r.diffRequest.Some? && svc.Fetch(r.diffRequest.value).Success? && svc.Fetch(r.diffRequest.value).value != "" ==>
          r.analysis.Some?)
    // the analysis gets the fetched, non-empty diff's files, minus the excluded ones
    && (r.analysis.Some? ==>
          && r.diffRequest.Some?
          && svc.Fetch(r.diffRequest.value).Success? && svc.Fetch(r.diffRequest.value).value != ""
          && r.analysis.value.files ==
               ReviewableFiles(svc.Fetch(r.diffRequest.value).value, excludeInput, svc.parseDiff, svc.matches))
    // comments are posted only when the analysis returned some
    && (r.post.Some? ==>
          && r.analysis.Some?
          && svc.Analyse(r.analysis.value) == Success(r.post.value.comments)
          && r.post.value.comments != [])
    // a clean stop analyses nothing
    && (r.outcome.Stopped? ==> r.analysis == None && r.post == None)
    // a completed run ends with the analysis' comments, and one whose calls all succeeded is completed
    && (r.outcome.Completed? ==>
          && r.analysis.Some?
          && svc.Analyse(r.analysis.value) == Success(r.outcome.comments)
          && (r.post.Some? ==> svc.Post(r.post.value).Success?))
    && (r.analysis.Some? && svc.Analyse(r.analysis.value).Success? &&
        (r.post == None || svc.Post(r.post.value).Success?) ==>
          r.outcome == Completed(svc.Analyse(r.analysis.value).value))
  }

  /** The pull-request branch of `main()`, once the pull number `n` has passed its check. */
  method RunPullRequest(n: int, step: PullStep, ctx: RepoRef, excludeInput: string, svc: Services)
    returns (r: RunResult)
    ensures WellFormedRun(r, svc, excludeInput, NoDiffInPull)
    // the pull request is read first, whatever the action, and a run fails only when a call threw
    ensures r.pullRead == Some(PullRead(ctx.owner, ctx.repo, n))
    ensures r.outcome.Failed? ==> r.outcome.error.ServiceError?
    ensures var info := svc.pullInfo(ctx.owner, ctx.repo, n);
            && (info.Success? && step == WholeDiff ==> r.diffRequest == Some(PullDiff(ctx.owner, ctx.repo, n)))
            && (info.Success? && step.CompareRange? ==>
                  r.diffRequest == Some(Compare(ctx.owner, ctx.repo, step.base, step.head)))
            && (info.Success? && step.UnsupportedAction? ==>
                  r == RunResult(Stopped(UnsupportedPullAction(step.action)), r.pullRead, None, None, None))
            && (r.outcome.Stopped? && r.outcome.reason.UnsupportedPullAction? ==> step.UnsupportedAction?)
            // the analysis gets the pull request's own details, and comments go back to that pull request
            && (r.analysis.Some? ==> info.Success? && r.analysis.value.details == PullDetails(ctx, n, info.value))
            && (r.post.Some? ==> r.post.value.owner == ctx.owner && r.post.value.repo == ctx.repo &&
                                 r.post.value.pullNumber == n)
    // and they are posted whenever the analysis returned some
    ensures r.analysis.Some? && svc.Analyse(r.analysis.value).Success? && svc.Analyse(r.analysis.value).value != [] ==>
              r.post.Some?
  {
    var read := Some(PullRead(ctx.owner, ctx.repo, n));
    var info := svc.pullInfo(ctx.owner, ctx.repo, n);
    if info.Failure? {
      return RunResult(Failed(ServiceError(info.message)), read, None, None, None);
    }
    var details := PullDetails(ctx, n, info.value);
    // `let diff = null`: every path that reaches the emptiness test assigns it first
    var request: DiffRequest;
    var diff: string;
    match step {
      case WholeDiff =>
        request := PullDiff(details.owner, details.repo, details.pullNumber);
        var response := svc.pullDiff(details.owner, details.repo, details.pullNumber);
        if response.Failure? {
          return RunResult(Failed(ServiceError(response.message)), read, Some(request), None, None);
        }
        diff := response.value;
      case CompareRange(base, head) =>
        request := Compare(details.owner, details.repo, base, head);
        var response := svc.compareCommits(details.owner, details.repo, base, head);
        if response.Failure? {
          return RunResult(Failed(ServiceError(response.message)), read, Some(request), None, None);
        }
        diff := response.value;
      case UnsupportedAction(action) =>
        return RunResult(Stopped(UnsupportedPullAction(action)), read, None, None, None);
    }
    if diff == "" {
      return RunResult(Stopped(NoDiffInPull), read, Some(request), None, None);
    }
    var files := ReviewableFiles(diff, excludeInput, svc.parseDiff, svc.matches);
    var call := Analysis(files, details);
    var analysis := svc.analyze(files, details);
    if analysis.Failure? {
      return RunResult(Failed(ServiceError(analysis.message)), read, Some(request), Some(call), None);
    }
    var comments := analysis.value;
    var post: Option<ReviewPost> := None;
    if |comments| > 0 {
      post := Some(ReviewPost(details.owner, details.repo, details.pullNumber, comments));
      var posted := svc.postReview(details.owner, details.repo, details.pullNumber, comments);
      if posted.Failure? {
        return RunResult(Failed(ServiceError(posted.message)), read, Some(request), Some(call), post);
      }
    }
    r := RunResult(Completed(comments), read, Some(request), Some(call), post);
  }

  /** The push branch of `main()`: compare `base..head` of `owner/repo` and analyse under a synthetic context. */
  method RunPush(owner: string, repo: string, base: string, head: string, excludeInput: string, svc: Services)
    returns (r: RunResult)
    ensures WellFormedRun(r, svc, excludeInput, NoDiffInPush)
    ensures r.diffRequest == Some(Compare(owner, repo, base, head))
    ensures r.analysis.Some? ==> r.analysis.value.details == PushDetails(owner, repo, head)
    // nothing about pull requests: none is read and no comment is posted
    ensures r.pullRead == None && r.post == None
    // a push fails only when a call threw, and its only clean stop is the empty diff
    ensures r.outcome.Failed? ==> r.outcome.error.ServiceError?
    ensures r.outcome.Stopped? ==> r.outcome.reason == NoDiffInPush
  {
    var request := Compare(owner, repo, base, head);
    var response := svc.compareCommits(owner, repo, base, head);
    if response.Failure? {
      return RunResult(Failed(ServiceError(response.message)), None, Some(request), None, None);
    }
    var diff := response.value;
    if diff == "" {
      return RunResult(Stopped(NoDiffInPush), None, Some(request), None, None);
    }
    var files := ReviewableFiles(diff, excludeInput, svc.parseDiff, svc.matches);
    var fakePR := PushDetails(owner, repo, head);
    var call := Analysis(files, fakePR);
    var analysis := svc.analyze(files, fakePR);
    if analysis.Failure? {
      return RunResult(Failed(ServiceError(analysis.message)), None, Some(request), Some(call), None);
    }
    // the push branch only reports the comments; it never posts them
    r := RunResult(Completed(analysis.value), None, Some(request), Some(call), None);
  }

  /** One run of `main()`; `excludeInput` is the `exclude` action input. */
  method Run(eventName: Option<string>, payload: Payload, ctx: RepoRef, excludeInput: string, svc: Services)
    returns (r: RunResult)
    ensures WellFormedRun(r, svc, excludeInput, if eventName == Some(PushEvent) then NoDiffInPush else NoDiffInPull)
    // pull_request: a missing or zero number fails the run before any call, whatever the action
    ensures eventName == Some(PullRequestEvent) && !HasPullNumber(payload) ==>
              r == RunResult(Failed(NoPullNumber), None, None, None, None)
    ensures eventName == Some(PullRequestEvent) && HasPullNumber(payload) ==>
              var n := payload.pullNumber.value;
              var info := svc.pullInfo(ctx.owner, ctx.repo, n);
              // the pull request is read first
              && r.pullRead == Some(PullRead(ctx.owner, ctx.repo, n))
              // opened: the full diff of the pull request, keyed by its number
              && (info.Success? && payload.action == Some(OpenedAction) ==>
                    r.diffRequest == Some(PullDiff(ctx.owner, ctx.repo, n)))
              // synchronize: exactly before..after of the payload
              && (info.Success? && payload.action == Some(SynchronizeAction) ==>
                    r.diffRequest == Some(Compare(ctx.owner, ctx.repo, payload.before, payload.after)))
              // any other action: stop cleanly once the pull request has been read
              && (info.Success? && payload.action != Some(OpenedAction) && payload.action != Some(SynchronizeAction) ==>
                    r == RunResult(Stopped(UnsupportedPullAction(payload.action)), r.pullRead, None, None, None))
              && (r.analysis.Some? ==> info.Success? && r.analysis.value.details == PullDetails(ctx, n, info.value))
              && (r.post.Some? ==> r.post.value.owner == ctx.owner && r.post.value.repo == ctx.repo &&
                                   r.post.value.pullNumber == n)
              && (r.analysis.Some? && svc.Analyse(r.analysis.value).Success? && svc.Analyse(r.analysis.value).value != [] ==>
                    r.post.Some?)
    // push: before..after in the payload's repository, a synthetic context, and no pull request involved
    ensures eventName == Some(PushEvent) && HasPushOwner(payload) ==>
              var owner := PushOwner(payload.repository.value.owner.value);
              var repo := payload.repository.value.name;
              && r.diffRequest == Some(Compare(owner, repo, payload.before, payload.after))
              && (r.analysis.Some? ==>
                    r.analysis.value.details == PRDetails(owner, repo, 0, PushTitlePrefix + payload.after, ""))
              && r.pullRead == None && r.post == None
    ensures eventName == Some(PushEvent) && !HasPushOwner(payload) ==>
              r == RunResult(Failed(MalformedPushPayload), None, None, None, None)
    // the two fatal payload errors happen in exactly those cases
    ensures r.outcome == Failed(NoPullNumber) <==> eventName == Some(PullRequestEvent) && !HasPullNumber(payload)
    ensures r.outcome == Failed(MalformedPushPayload) <==> eventName == Some(PushEvent) && !HasPushOwner(payload)
    // any other event: stop cleanly and call nothing
    ensures eventName != Some(PullRequestEvent) && eventName != Some(PushEvent) ==>
              r == RunResult(Stopped(UnsupportedEventType(eventName)), None, None, None, None)
  {
    match Route(eventName, payload) {
      case Fatal(e) =>
        r := RunResult(Failed(e), None, None, None, None);
      case UnsupportedEvent(name) =>
        r := RunResult(Stopped(UnsupportedEventType(name)), None, None, None, None);
      case PullRequestRun(n, step) =>
        r := RunPullRequest(n, step, ctx, excludeInput, svc);
      case PushRun(owner, repo, base, head) =>
        r := RunPush(owner, repo, base, head, excludeInput, svc);
    }
  }
}
