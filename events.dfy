/**
 * The trigger event as the entry point reads it, and the routing decision it
 * takes from the event name and the payload before any diff is fetched.
 */
module Events {
  import opened Wrappers

  const PullRequestEvent := "pull_request"
  const PushEvent := "push"
  const OpenedAction := "opened"
  const SynchronizeAction := "synchronize"
  const PushTitlePrefix := "Push analysis: "

  /** `repository.owner` of a push payload: `name` may be absent or empty, `login` is the fallback. */
  datatype Owner = Owner(name: Option<string>, login: string)

  /** `repository` of a push payload; `owner` may be missing from a malformed payload. */
  datatype Repository = Repository(name: string, owner: Option<Owner>)

  /**
   * The fields of the event payload the entry point reads. `pullNumber` is
   * `pull_request?.number`, which is absent outside pull-request payloads.
   */
  datatype Payload = Payload(
    action: Option<string>,
    pullNumber: Option<int>,
    before: string,
    after: string,
    repository: Option<Repository>)

  /** `github.context.repo`: the owner and name of the repository the workflow runs in. */
  datatype RepoRef = RepoRef(owner: string, repo: string)

  /** The part of `pulls.get`'s answer that is read: the title and the body, which may be null. */
  datatype PullInfo = PullInfo(title: string, body: Option<string>)

  /** The review context handed to the analysis, real for a pull request and synthetic for a push. */
  datatype PRDetails = PRDetails(owner: string, repo: string, pullNumber: int, title: string, description: string)

  /** Why a run failed: what `core.setFailed` receives. */
  datatype RunError =
    | NoPullNumber              // "No pull request number found in context"
    | MalformedPushPayload      // reading `repository.owner` of a payload that lacks it throws
    | ServiceError(message: string)

  /** How the diff of a pull-request run is obtained, decided by the payload's `action`. */
  datatype PullStep =
    | WholeDiff                                  // `opened`: the full diff of the pull request
    | CompareRange(base: string, head: string)   // `synchronize`: only the newly pushed commits
    | UnsupportedAction(action: Option<string>)  // anything else: stop after reading the PR

  datatype Plan =
    | PullRequestRun(pullNumber: int, step: PullStep)
    | PushRun(owner: string, repo: string, base: string, head: string)
    | UnsupportedEvent(eventName: Option<string>)
    | Fatal(error: RunError)

  /** `!pull_number` is false: the number is present and not 0. */
  predicate HasPullNumber(p: Payload) {
    p.pullNumber.Some? && p.pullNumber.value != 0
  }

  /** The push payload carries a repository with an owner. */
  predicate HasPushOwner(p: Payload) {
    p.repository.Some? && p.repository.value.owner.Some?
  }

  /** `owner.name || owner.login`: the name unless it is absent or empty. */
  function PushOwner(o: Owner): (login: string)
    ensures o.name.Some? && o.name.value != "" ==> login == o.name.value
    ensures o.name == None || o.name == Some("") ==> login == o.login
  {
    if o.name.Some? && o.name.value != "" then o.name.value else o.login
  }

  /** The details `getPRDetails` returns: context repository, pull number, title and body (`body ?? ""`). */
  function PullDetails(ctx: RepoRef, pullNumber: int, info: PullInfo): (d: PRDetails)
    ensures d.owner == ctx.owner && d.repo == ctx.repo && d.pullNumber == pullNumber
    ensures d.title == info.title
    ensures d.description == if info.body.Some? then info.body.value else ""
  {
    PRDetails(ctx.owner, ctx.repo, pullNumber, info.title, info.body.GetOr(""))
  }

  /** The synthetic details of a push run: no pull request (number 0), a title naming the head commit, no description. */
  function PushDetails(owner: string, repo: string, head: string): (d: PRDetails)
    ensures d.owner == owner && d.repo == repo && d.pullNumber == 0 && d.description == ""
    ensures |d.title| == |PushTitlePrefix| + |head|
    ensures d.title[..|PushTitlePrefix|] == PushTitlePrefix && d.title[|PushTitlePrefix|..] == head
  {
    PRDetails(owner, repo, 0, PushTitlePrefix + head, "")
  }

  /**
   * The decision `main()` takes on its inputs. In the pull-request branch the
   * pull number is checked before the action is looked at, so a missing or
   * zero number fails the run whatever the action.
   */
  function Route(eventName: Option<string>, payload: Payload): (plan: Plan)
    // the pull-request branch: the number check comes first
    ensures eventName == Some(PullRequestEvent) && !HasPullNumber(payload) ==> plan == Fatal(NoPullNumber)
    ensures plan.PullRequestRun? <==> eventName == Some(PullRequestEvent) && HasPullNumber(payload)
    ensures plan.PullRequestRun? ==> plan.pullNumber == payload.pullNumber.value && plan.pullNumber != 0
    // the action picks the diff
    ensures plan.PullRequestRun? ==>
              (plan.step == WholeDiff <==> payload.action == Some(OpenedAction))
    ensures plan.PullRequestRun? ==>
              (plan.step.CompareRange? <==> payload.action == Some(SynchronizeAction))
    ensures plan.PullRequestRun? && plan.step.CompareRange? ==>
              plan.step.base == payload.before && plan.step.head == payload.after
    ensures plan.PullRequestRun? && plan.step.UnsupportedAction? ==> plan.step.action == payload.action
    // the push branch
    ensures plan.PushRun? <==> eventName == Some(PushEvent) && HasPushOwner(payload)
    ensures plan.PushRun? ==>
              plan.owner == PushOwner(payload.repository.value.owner.value) &&
              plan.repo == payload.repository.value.name &&
              plan.base == payload.before && plan.head == payload.after
    ensures eventName == Some(PushEvent) && !HasPushOwner(payload) ==> plan == Fatal(MalformedPushPayload)
    // any other event
    ensures plan.UnsupportedEvent? <==> eventName != Some(PullRequestEvent) && eventName != Some(PushEvent)
    ensures plan.UnsupportedEvent? ==> plan.eventName == eventName
  {
    if eventName == Some(PullRequestEvent) then
      if !HasPullNumber(payload) then Fatal(NoPullNumber)
      else
        var step :=
          if payload.action == Some(OpenedAction) then WholeDiff
          else if payload.action == Some(SynchronizeAction) then CompareRange(payload.before, payload.after)
          else UnsupportedAction(payload.action);
        PullRequestRun(payload.pullNumber.value, step)
    else if eventName == Some(PushEvent) then
      if !HasPushOwner(payload) then Fatal(MalformedPushPayload)
      else
        var repository := payload.repository.value;
        PushRun(PushOwner(repository.owner.value), repository.name, payload.before, payload.after)
    else UnsupportedEvent(eventName)
  }
}
