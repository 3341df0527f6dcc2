/**
 What `AtomicTemplate.executeChecked` does to the world, as a function of an adversary's script.

 The script decides what the template cannot: what the body does in each attempt and how it ends,
 what other threads commit meanwhile, and whether a commit is granted.  A body is a list of
 container operations, explicit aborts and calls of further templates.  A script that ends before
 the template is done leaves it `Running`; every finite prefix of an endless run is such a script.
 */
module TemplateSpec {
  import opened JavaInt
  import opened Wrappers
  import opened Stm
  import opened Templates

  datatype End = Return(result: string) | Throw(ex: Exn)

  datatype Body = Body(actions: seq<Action>, end: End)

  datatype Action =
    | Do(op: Op, fault: Option<nat>)
    | AbortTx                                                       // t.abort() by the body
    | Call(template: Template, attempts: seq<Attempt>, viaExecute: bool)

  datatype Attempt = Attempt(others: Store, body: Body, granted: bool)

  datatype Outcome = Returned(result: string) | Threw(ex: Exn) | Running

  /** `execute` hides checked exceptions; `executeChecked` does not. */
  function WrapChecked(ex: Exn): Exn {
    if ex.Checked? then InvisibleChecked(ex) else ex
  }

  function WrapIf(wrap: bool, o: Outcome): Outcome {
    if wrap && o.Threw? then Threw(WrapChecked(o.ex)) else o
  }

  /** `shown` is the outcome for a caller that declares no checked exception. */
  ghost predicate HidesChecked(o: Outcome, shown: Outcome) {
    match o
    case Threw(Checked(name)) => shown == Threw(InvisibleChecked(Checked(name)))
    case _ => shown == o
  }

  /** The transaction that a template joins: an active one in the slot, unless it ignores the slot. */
  function Usable(w: World, template: Template): Option<nat>
    requires w.Valid()
  {
    if template.ignoreThreadLocal || w.slot.None? || !w.IsActive(w.slot.value) then None else w.slot
  }

  function Slot(w: World, template: Template, t: Option<nat>): World {
    if template.ignoreThreadLocal then w else SetSlot(w, t)
  }

  /** The world in which the body of an attempt starts: other threads have committed, and the
      template hands over its transaction. */
  function Begin(w: World, t: nat, others: Store): World
    requires t < |w.txs|
  {
    w.(store := w.store + others, log := w.log + [Began(t, w.IsActive(t), others)])
  }

  /** How an attempt ends once `execute(t)` is over: the outcome that leaves the template, or None
      for another round together with the cause recorded for it. */
  function Finish(w: World, t: nat, o: Outcome, granted: bool, cause: Option<Exn>):
      (r: (World, Option<Outcome>, Option<Exn>))
    requires t < |w.txs| && !o.Running?
    ensures |r.0.txs| == |w.txs| && r.0.slot == w.slot
  {
    match o
    case Returned(_) =>
      if w.txs[t].status == Aborted then
        (Abort(FailedWith(w, t, AbortedException), t, TemplateAborted(t)), Some(Threw(AbortedException)), cause)
      else if CommitSucceeds(w, t, granted) then
        (Commit(w, t), Some(o), cause)
      else
        Conflict(w, t, CommitFailure(0))
    case Threw(ex) =>
      if ex.RetryError? then
        (AbortAndWaitForRetry(FailedWith(w, t, ex), t), None, cause)
      else if ex.CommitFailure? || ex.LoadFailure? then
        Conflict(w, t, ex)
      else
        (Abort(FailedWith(w, t, ex), t, TemplateAborted(t)), Some(o), cause)
  }

  function FailedWith(w: World, t: nat, ex: Exn): World {
    w.(log := w.log + [Failed(t, ex)])
  }

  function Conflict(w: World, t: nat, ex: Exn): (World, Option<Outcome>, Option<Exn>)
    requires t < |w.txs|
  {
    (Restart(Abort(FailedWith(w, t, ex), t, TemplateAborted(t)), t), None, Some(ex))
  }

  /** `executeChecked` from lookup of a transaction to the clearing of the slot. */
  function RunTemplate(w: World, template: Template, attempts: seq<Attempt>): (r: (World, Outcome))
    requires w.Valid()
    ensures r.0.Valid() && |r.0.txs| >= |w.txs|
    decreases attempts, 1
  {
    match Usable(w, template)
    case Some(t) =>
      if attempts == [] then (w, Running) else RunBody(w, t, attempts[0])
    case None =>
      var (w', o) := Loop(Entered(w, template), |w.txs|, template, attempts, None);
      if o.Running? then (w', o) else (Slot(w', template, None), o)
  }

  /** The world in which the template enters its loop. */
  function Entered(w: World, template: Template): World {
    Slot(Start(w, template.readonly), template, Some(|w.txs|)).SetCount(template, 1)
  }

  /** `attemptCount++` */
  function Counted(w: World, template: Template): World {
    w.SetCount(template, Wrap32(w.Count(template) + 1))
  }

  /** The guard of the loop. */
  predicate MayTry(w: World, template: Template) {
    Wrap32(w.Count(template) - 1) <= template.retryCount
  }

  /** The while loop, entered with the given recorded cause. */
  function Loop(w: World, t: nat, template: Template, attempts: seq<Attempt>, cause: Option<Exn>): (r: (World, Outcome))
    requires w.Valid() && t < |w.txs|
    ensures r.0.Valid() && |r.0.txs| >= |w.txs|
    decreases attempts, 0
  {
    if !MayTry(w, template) then (w, Threw(TooManyRetries(cause)))
    else if attempts == [] then (w, Running)
    else
      var (w', escapes, cause') := Round(w, t, attempts[0], cause);
      match escapes
      case Some(result) => (w', result)
      case None => Loop(Counted(w', template), t, template, attempts[1..], cause')
  }

  /** How many attempts the loop makes. */
  function Rounds(w: World, t: nat, template: Template, attempts: seq<Attempt>, cause: Option<Exn>): (n: nat)
    requires w.Valid() && t < |w.txs|
    ensures n <= |attempts|
    decreases attempts, 0
  {
    if !MayTry(w, template) || attempts == [] then 0
    else
      var (w', escapes, cause') := Round(w, t, attempts[0], cause);
      1 + if escapes.Some? then 0 else Rounds(Counted(w', template), t, template, attempts[1..], cause')
  }

  /** How many attempts a run makes; a joining one makes no second one. */
  function AttemptsMade(w: World, template: Template, attempts: seq<Attempt>): (n: nat)
    requires w.Valid()
    ensures n <= |attempts|
  {
    match Usable(w, template)
    case Some(_) => if attempts == [] then 0 else 1
    case None => Rounds(Entered(w, template), |w.txs|, template, attempts, None)
  }

  /** What the template answers by another attempt on a restarted transaction. */
  predicate IsConflict(ex: Exn) {
    ex.CommitFailure? || ex.LoadFailure?
  }

  predicate IsRetried(ex: Exn) {
    ex.RetryError? || IsConflict(ex)
  }

  /** What the log records from w to w'. */
  function Suffix(w: World, w': World): seq<Event>
    requires w.log <= w'.log
  {
    w'.log[|w.log|..]
  }

  /** One pass through the loop body. */
  function Round(w: World, t: nat, a: Attempt, cause: Option<Exn>): (r: (World, Option<Outcome>, Option<Exn>))
    requires w.Valid() && t < |w.txs|
    ensures r.0.Valid() && |r.0.txs| >= |w.txs|
    decreases a, 1
  {
    var (w', o) := RunBody(Begin(w, t, a.others), t, a);
    if o.Running? then (w', Some(o), cause) else Finish(w', t, o, a.granted, cause)
  }

  /** `execute(t)`. */
  function RunBody(w: World, t: nat, a: Attempt): (r: (World, Outcome))
    requires w.Valid() && t < |w.txs|
    ensures r.0.Valid() && |r.0.txs| >= |w.txs|
    decreases a, 0
  {
    RunActions(w, t, a.body.actions, a.body.end)
  }

  function AtEnd(end: End): Outcome {
    match end case Return(v) => Returned(v) case Throw(ex) => Threw(ex)
  }

  function RunActions(w: World, t: nat, actions: seq<Action>, end: End): (r: (World, Outcome))
    requires w.Valid() && t < |w.txs|
    ensures r.0.Valid() && |r.0.txs| >= |w.txs|
    decreases actions
  {
    if actions == [] then
      (w, AtEnd(end))
    else
      match actions[0]
      case Do(op, fault) =>
        (match Operate(w, t, op, fault)
         case Err(ex) => (w, Threw(ex))
         case Ok(w') => RunActions(w', t, actions[1..], end))
      case AbortTx =>
        RunActions(Abort(w, t, BodyAborted(t)), t, actions[1..], end)
      case Call(template, attempts, viaExecute) =>
        var (w', o) := RunTemplate(w, template, attempts);
        if o.Returned? then RunActions(w', t, actions[1..], end) else (w', WrapIf(viaExecute, o))
  }
}
