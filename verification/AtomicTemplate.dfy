/** The retry template itself, as the object whose method drives a transaction step by step. */
module AtomicTemplates {
  import opened JavaInt
  import opened Wrappers
  import opened Stm
  import opened TemplateSpec
  import opened Templates

  /** The STM and the thread-local slot that the templates of one thread work on, and these templates. */
  class Runtime {
    var world: World                          // the counts are fields of the templates
    var templates: map<nat, AtomicTemplate>
    var nextId: nat

    constructor ()
      ensures Valid() && templates == map[] && View() == World(map[], [], None, [], map[])
    {
      world, templates, nextId := World(map[], [], None, [], map[]), map[], 0;
    }

    ghost predicate Valid()
      reads this
    {
      && world.Valid() && world.counts == map[]
      && forall id | id in templates :: id < nextId && templates[id].stm == this && templates[id].id == id
    }

    function Counts(): map<nat, Int32>
      reads `templates, templates.Values`attemptCount
    {
      map id | id in templates :: templates[id].attemptCount
    }

    /** The world with the counts where they are. */
    function View(): World
      reads `world, `templates, templates.Values`attemptCount
    {
      world.(counts := Counts())
    }

    function Configs(): map<nat, Template>
      reads `templates
    {
      map id | id in templates :: templates[id].Config()
    }
  }

  /** Every template that the script calls is one of these. */
  predicate Known(attempts: seq<Attempt>, configs: map<nat, Template>)
    decreases attempts
  {
    attempts != [] ==> KnownAttempt(attempts[0], configs) && Known(attempts[1..], configs)
  }

  predicate KnownAttempt(a: Attempt, configs: map<nat, Template>)
    decreases a
  {
    KnownActions(a.body.actions, configs)
  }

  predicate KnownActions(actions: seq<Action>, configs: map<nat, Template>)
    decreases actions
  {
    actions != [] ==>
      && (match actions[0]
          case Call(template, attempts, _) =>
            template.id in configs && configs[template.id] == template && Known(attempts, configs)
          case _ => true)
      && KnownActions(actions[1..], configs)
  }

  datatype IllegalConstruction = NullPointer | IllegalArgument

  class AtomicTemplate {
    const stm: Runtime
    const id: nat
    const ignoreThreadLocalTransaction: bool
    const retryCount: RetryCount
    const readonly: bool
    var attemptCount: Int32

    constructor (stm: Runtime, template: Template)
      ensures this.stm == stm && Config() == template && attemptCount == 0
    {
      this.stm := stm;
      id := template.id;
      ignoreThreadLocalTransaction := template.ignoreThreadLocal;
      readonly := template.readonly;
      retryCount := template.retryCount;
      attemptCount := 0;
    }

    /** The public constructor with its two checks. */
    static method Create(stm: Runtime?, ignoreThreadLocal: bool, readonly: bool, retryCount: Int32)
      returns (r: Result<AtomicTemplate, IllegalConstruction>)
      requires stm != null ==> stm.Valid()
      modifies stm
      ensures r == Err(NullPointer) <==> stm == null
      ensures r == Err(IllegalArgument) <==> stm != null && retryCount < 0
      ensures stm != null ==> stm.Valid() && stm.world == old(stm.world)
      ensures stm != null && r.Err? ==> stm.templates == old(stm.templates)
      ensures r.Ok? ==>
                && fresh(r.value) && r.value.Registered() && r.value.attemptCount == 0
                && r.value.id !in old(stm.templates) && stm.templates == old(stm.templates)[r.value.id := r.value]
                && r.value.Config() == Template(r.value.id, retryCount, ignoreThreadLocal, readonly)
    {
      if stm == null {
        return Err(NullPointer);
      }
      if retryCount < 0 {
        return Err(IllegalArgument);
      }
      var t := new AtomicTemplate(stm, Template(stm.nextId, retryCount, ignoreThreadLocal, readonly));
      stm.templates, stm.nextId := stm.templates[stm.nextId := t], stm.nextId + 1;
      return Ok(t);
    }

    function Config(): Template {
      Template(id, retryCount, ignoreThreadLocalTransaction, readonly)
    }

    /** This is one of the templates of its runtime. */
    ghost predicate Registered()
      reads stm
    {
      stm.Valid() && id in stm.templates && stm.templates[id] == this
    }

    method GetAttemptCount() returns (count: Int32)
      requires Registered()
      ensures count == stm.View().Count(Config())
    {
      count := attemptCount;
    }

    method SetAttemptCount(count: Int32)
      requires Registered()
      modifies `attemptCount
      ensures attemptCount == count && stm.View() == old(stm.View()).SetCount(Config(), count)
    {
      ghost var before := stm.View().counts;
      attemptCount := count;
      assert stm.View().counts == before[id := count];
    }

    /** A checked exception of the run leaves as the cause of an unchecked one, and anything else as it is. */
    method Execute(attempts: seq<Attempt>) returns (o: Outcome)
      requires Registered() && Known(attempts, stm.Configs())
      modifies stm`world, stm.templates.Values`attemptCount
      ensures Registered() && stm.View() == RunTemplate(old(stm.View()), Config(), attempts).0
      ensures HidesChecked(RunTemplate(old(stm.View()), Config(), attempts).1, o)
      ensures o == WrapIf(true, RunTemplate(old(stm.View()), Config(), attempts).1)
      decreases attempts, 3
    {
      o := ExecuteChecked(attempts);
      if o.Threw? && o.ex.Checked? {
        o := Threw(InvisibleChecked(o.ex));
      }
    }

    method ExecuteChecked(attempts: seq<Attempt>) returns (o: Outcome)
      requires Registered() && Known(attempts, stm.Configs())
      modifies stm`world, stm.templates.Values`attemptCount
      ensures Registered() && (stm.View(), o) == RunTemplate(old(stm.View()), Config(), attempts)
      decreases attempts, 2
    {
      var current := GetTransaction();
      if NoUsableTransaction(current) {
        var t := |stm.world.txs|;
        StartTransaction();
        SetTransaction(Some(t));
        o := Retry(t, attempts);
        if !o.Running? {
          SetTransaction(None);       // finally
        }
      } else if attempts == [] {
        o := Running;
      } else {
        o := ExecuteBody(current.value, attempts[0]);
      }
    }

    /** The try block of `executeChecked`: the retry loop. */
    method Retry(t: nat, attempts: seq<Attempt>) returns (o: Outcome)
      requires Registered() && Known(attempts, stm.Configs()) && t < |stm.world.txs|
      modifies stm`world, stm.templates.Values`attemptCount
      ensures Registered() && |stm.world.txs| > t
      ensures (stm.View(), o) == Loop(old(stm.View()).SetCount(Config(), 1), t, Config(), attempts, None)
      decreases attempts, 1
    {
      SetAttemptCount(1);
      var lastRetryCause: Option<Exn> := None;
      var i := 0;
      ghost var goal := Loop(stm.View(), t, Config(), attempts, None);
      assert attempts[0..] == attempts;
      while Wrap32(attemptCount - 1) <= retryCount
        invariant i <= |attempts| && Registered() && t < |stm.world.txs|
        invariant Known(attempts[i..], stm.Configs())
        invariant goal == Loop(stm.View(), t, Config(), attempts[i..], lastRetryCause)
        decreases |attempts| - i
      {
        if i == |attempts| {
          return Running;
        }
        var escapes;
        escapes, lastRetryCause := TryOnce(t, attempts, i, lastRetryCause);
        if escapes.Some? {
          return escapes.value;
        }
        i := i + 1;
      }
      o := Threw(TooManyRetries(lastRetryCause));
    }

    /** The body of the loop, up to `attemptCount++`. */
    method TryOnce(t: nat, attempts: seq<Attempt>, i: nat, cause: Option<Exn>)
      returns (escapes: Option<Outcome>, lastRetryCause: Option<Exn>)
      requires Registered() && i < |attempts| && Known(attempts[i..], stm.Configs()) && t < |stm.world.txs|
      requires Wrap32(attemptCount - 1) <= retryCount
      modifies stm`world, stm.templates.Values`attemptCount
      ensures Registered() && Known(attempts[i + 1..], stm.Configs()) && t < |stm.world.txs|
      ensures Loop(old(stm.View()), t, Config(), attempts[i..], cause) ==
              if escapes.Some? then (stm.View(), escapes.value)
              else Loop(stm.View(), t, Config(), attempts[i + 1..], lastRetryCause)
      decreases attempts[i..], 0
    {
      FieldIsCount();
      OneRound(stm.View(), t, Config(), attempts, i, cause, stm.Configs());
      escapes, lastRetryCause := Attempt(t, attempts[i], cause);
      if escapes.None? {
        CountUp();
      }
    }

    lemma FieldIsCount()
      requires Registered()
      ensures stm.View().Count(Config()) == attemptCount
    {
    }

    /** `attemptCount++` */
    method CountUp()
      requires Registered()
      modifies `attemptCount
      ensures stm.View() == Counted(old(stm.View()), Config())
    {
      FieldIsCount();
      SetAttemptCount(Wrap32(attemptCount + 1));
    }

    static lemma OneRound(w: World, t: nat, template: Template, attempts: seq<Attempt>, i: nat, cause: Option<Exn>,
                          configs: map<nat, Template>)
      requires w.Valid() && t < |w.txs| && i < |attempts| && MayTry(w, template) && Known(attempts[i..], configs)
      ensures KnownAttempt(attempts[i], configs) && Known(attempts[i + 1..], configs)
      ensures var (w', escapes, cause') := Round(w, t, attempts[i], cause);
              Loop(w, t, template, attempts[i..], cause) ==
              if escapes.Some? then (w', escapes.value)
              else Loop(Counted(w', template), t, template, attempts[i + 1..], cause')
    {
      assert attempts[i..][0] == attempts[i] && attempts[i..][1..] == attempts[i + 1..];
    }

    /** One pass through the loop; `escapes` is what leaves the loop, if anything does. */
    method Attempt(t: nat, a: Attempt, cause: Option<Exn>)
      returns (escapes: Option<Outcome>, lastRetryCause: Option<Exn>)
      requires Registered() && KnownAttempt(a, stm.Configs()) && t < |stm.world.txs|
      modifies stm`world, stm.templates.Values`attemptCount
      ensures Registered() && (stm.View(), escapes, lastRetryCause) == Round(old(stm.View()), t, a, cause)
      decreases a, 1
    {
      BeginAttempt(t, a.others);
      var o := ExecuteBody(t, a);
      if o.Running? {
        return Some(o), cause;
      }
      FinishKeepsCounts(stm.world, stm.Counts(), t, o, a.granted, cause);
      escapes, lastRetryCause := Finally(t, o, a.granted, cause);
    }

    /** Other threads commit, and the body is handed the transaction. */
    method BeginAttempt(t: nat, others: Store)
      requires Registered() && t < |stm.world.txs|
      modifies stm`world
      ensures Registered() && stm.View() == Begin(old(stm.View()), t, others)
    {
      stm.world := Begin(stm.world, t, others);
    }

    static lemma FinishKeepsCounts(w: World, counts: map<nat, Int32>, t: nat, o: Outcome, granted: bool,
                                   cause: Option<Exn>)
      requires t < |w.txs| && !o.Running?
      ensures var (w', escapes, cause') := Finish(w, t, o, granted, cause);
              && Finish(w.(counts := counts), t, o, granted, cause) == (w'.(counts := counts), escapes, cause')
              && w'.counts == w.counts
    {
      if o.Threw? && o.ex.RetryError? {
      } else if o.Threw? && !o.ex.CommitFailure? && !o.ex.LoadFailure? {
      } else if o.Returned? && w.txs[t].status == Aborted {
      } else if o.Returned? && CommitSucceeds(w, t, granted) {
      } else {
        ConflictKeepsCounts(w, counts, t, if o.Threw? then o.ex else CommitFailure(0));
      }
    }

    static lemma ConflictKeepsCounts(w: World, counts: map<nat, Int32>, t: nat, ex: Exn)
      requires t < |w.txs|
      ensures Conflict(w.(counts := counts), t, ex).0 == Conflict(w, t, ex).0.(counts := counts)
      ensures Conflict(w, t, ex).0.counts == w.counts
    {
    }

    /** The rest of the loop body after `execute(t)` ended with o: the commit, the catch clauses and
        the finally block. */
    method Finally(t: nat, o: Outcome, granted: bool, cause: Option<Exn>)
      returns (escapes: Option<Outcome>, lastRetryCause: Option<Exn>)
      requires t < |stm.world.txs| && !o.Running?
      modifies stm`world
      ensures (stm.world, escapes, lastRetryCause) == Finish(old(stm.world), t, o, granted, cause)
    {
      lastRetryCause := cause;
      var abort, reset := true, false;
      var thrown := None;
      if o.Threw? {
        thrown := Some(o.ex);
      } else if stm.world.txs[t].status == Aborted {
        thrown := Some(AbortedException);
      } else if CommitSucceeds(stm.world, t, granted) {
        stm.world := Commit(stm.world, t);
        abort := false;
        escapes := Some(o);
      } else {
        thrown := Some(CommitFailure(0));
      }
      if thrown.Some? {
        stm.world := FailedWith(stm.world, t, thrown.value);
        match thrown.value {
          case RetryError =>
            stm.world := AbortAndWaitForRetry(stm.world, t);
            abort, escapes := false, None;
          case CommitFailure(_) =>
            lastRetryCause, reset, escapes := thrown, true, None;
          case LoadFailure(_) =>
            lastRetryCause, reset, escapes := thrown, true, None;
          case _ =>
            escapes := Some(Threw(thrown.value));
        }
      }
      if abort {                      // finally
        stm.world := Abort(stm.world, t, TemplateAborted(t));
        if reset {
          stm.world := Restart(stm.world, t);
        }
      }
    }

    /** `execute(t)`: the body that this attempt runs, with the templates it calls.  They may call this
        one again. */
    method ExecuteBody(t: nat, a: Attempt) returns (o: Outcome)
      requires Registered() && KnownAttempt(a, stm.Configs()) && t < |stm.world.txs|
      modifies stm`world, stm.templates.Values`attemptCount
      ensures Registered() && (stm.View(), o) == RunBody(old(stm.View()), t, a)
      decreases a, 0
    {
      var actions, end := a.body.actions, a.body.end;
      for i := 0 to |actions|
        invariant Registered() && t < |stm.world.txs| && KnownActions(actions[i..], stm.Configs())
        invariant RunActions(old(stm.View()), t, actions, end) == RunActions(stm.View(), t, actions[i..], end)
      {
        match actions[i] {
          case Do(op, fault) =>
            var thrown := PerformOperation(t, op, fault);
            if thrown.Some? {
              return Threw(thrown.value);
            }
          case AbortTx =>
            AbortByBody(t);
          case Call(template, attempts, viaExecute) =>
            o := CallTemplate(template, attempts, viaExecute);
            if !o.Returned? {
              return;
            }
        }
      }
      o := AtEnd(end);
    }

    method PerformOperation(t: nat, op: Op, fault: Option<nat>) returns (thrown: Option<Exn>)
      requires Registered() && t < |stm.world.txs|
      modifies stm`world
      ensures Registered()
      ensures Operate(old(stm.View()), t, op, fault) == if thrown.Some? then Err(thrown.value) else Ok(stm.View())
      ensures thrown.Some? ==> stm.View() == old(stm.View())
    {
      var r := Operate(stm.world, t, op, fault);
      if r.Err? {
        return Some(r.error);
      }
      stm.world := r.value;
      thrown := None;
    }

    method AbortByBody(t: nat)
      requires Registered() && t < |stm.world.txs|
      modifies stm`world
      ensures Registered() && stm.View() == Abort(old(stm.View()), t, BodyAborted(t))
    {
      stm.world := Abort(stm.world, t, BodyAborted(t));
    }

    /** `execute` or `executeChecked` of a template, possibly this one. */
    method CallTemplate(template: Template, attempts: seq<Attempt>, viaExecute: bool) returns (o: Outcome)
      requires Registered() && Known(attempts, stm.Configs())
      requires template.id in stm.templates && stm.templates[template.id].Config() == template
      modifies stm`world, stm.templates.Values`attemptCount
      ensures Registered()
      ensures var (w', o') := RunTemplate(old(stm.View()), template, attempts);
              && stm.View() == w' && (if viaExecute then HidesChecked(o', o) else o == o')
              && o == WrapIf(viaExecute, o')
      decreases attempts, 4
    {
      var inner := stm.templates[template.id];
      if viaExecute {
        o := inner.Execute(attempts);
      } else {
        o := inner.ExecuteChecked(attempts);
      }
    }

    method StartTransaction()
      requires Registered()
      modifies stm`world
      ensures Registered() && stm.View() == Start(old(stm.View()), readonly)
    {
      stm.world := Start(stm.world, readonly);
    }

    /** Together with the next test, the transaction that this template joins, if there is one. */
    method GetTransaction() returns (t: Option<nat>)
      requires Registered()
      ensures t.Some? ==> t.value < |stm.world.txs|
      ensures Usable(stm.View(), Config()) == if NoUsableTransaction(t) then None else t
    {
      t := if ignoreThreadLocalTransaction then None else stm.world.slot;
    }

    predicate NoUsableTransaction(t: Option<nat>)
      requires t.Some? ==> t.value < |stm.world.txs|
      reads stm
    {
      t.None? || stm.world.txs[t.value].status != Active
    }

    method SetTransaction(t: Option<nat>)
      requires Registered() && (t.Some? ==> t.value < |stm.world.txs|)
      modifies stm`world
      ensures Registered() && stm.View() == Slot(old(stm.View()), Config(), t)
    {
      if !ignoreThreadLocalTransaction {
        stm.world := SetSlot(stm.world, t);
      }
    }
  }
}
