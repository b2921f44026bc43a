/** Cleanup of `using` and `await using` declarations. */
module Disposal {
  import opened SchemaGraph

  // ---------- What the program and its disposers do ----------

  /** A property read as a method. */
  datatype Method = Absent | NotCallable | Callable(id: nat)

  datatype Resource = Nullish | Primitive | Object(asyncDispose: Method, dispose: Method)

  /** `[async, dispose, value]`, or `[async]` for a nullish `await using`. */
  datatype Entry = Entry(async: bool, disposer: Option<nat>)

  datatype Thrown = Thrown(id: nat)

  /** A disposer throws, or returns; what an async one returns settles later. */
  datatype Behaviour = Throws(e: Thrown) | Returns(rejection: Option<Thrown>)

  /** What the entry at each position of the stack does when it is disposed. */
  type Script = nat -> Behaviour

  datatype Error = Plain(e: Thrown) | Suppressed(e: Thrown, suppressed: Error)

  // ---------- Declaring ----------

  datatype Declared = Pushed(entry: Entry) | Skipped | TypeError

  /** `__using`: what a declaration adds to the stack. */
  function Declare(value: Resource, async: bool): Declared {
    match value
    case Nullish => if async then Pushed(Entry(true, None)) else Skipped
    case Primitive => TypeError
    case Object(asyncDispose, dispose) =>
      var chosen := if async && !asyncDispose.Absent? then asyncDispose else dispose;
      if chosen.Callable? then Pushed(Entry(async, Some(chosen.id))) else TypeError
  }

  /** The method that a declaration calls at the end: `await using` prefers the asynchronous one and
      falls back on the other where there is none; `using` looks at the synchronous one only. */
  lemma DeclareChooses(asyncDispose: Method, dispose: Method, id: nat)
    ensures Declare(Object(asyncDispose, dispose), false) == Pushed(Entry(false, Some(id))) <==> dispose == Callable(id)
    ensures Declare(Object(asyncDispose, dispose), true) == Pushed(Entry(true, Some(id))) <==>
            asyncDispose == Callable(id) || (asyncDispose == Absent && dispose == Callable(id))
    ensures Declare(Object(asyncDispose, dispose), false) == TypeError <==> !dispose.Callable?
    ensures Declare(Object(asyncDispose, dispose), true) == TypeError <==>
            asyncDispose == NotCallable || (asyncDispose == Absent && !dispose.Callable?)
  {
  }

  /** `null` and `undefined` are skipped, but `await using` still waits once; any other primitive is an
      error. */
  lemma DeclareOfPrimitives(does: Behaviour)
    ensures Declare(Nullish, false) == Skipped && Declare(Primitive, false) == Declare(Primitive, true) == TypeError
    ensures var d := Declare(Nullish, true);
            d.Pushed? && Failure(d.entry, does) == None && Suspends(d.entry, does)
  {
  }

  /** A disposer fails if it throws, or if it is awaited and its promise rejects; it keeps the caller
      waiting if it is awaited and does not throw. */
  lemma FailsOrWaits(async: bool, id: nat, e: Thrown)
    ensures var entry := Entry(async, Some(id));
            && Failure(entry, Throws(e)) == Some(e) && !Suspends(entry, Throws(e))
            && Failure(entry, Returns(None)) == None
            && Failure(entry, Returns(Some(e))) == (if async then Some(e) else None)
            && forall r :: Suspends(entry, Returns(r)) <==> async
  {
  }

  /** The block that a `using` declaration belongs to. */
  class Scope {
    var stack: seq<Entry>

    constructor ()
      ensures stack == []
    {
      stack := [];
    }

    /** An erroneous declaration leaves the stack as it is. */
    method Using(value: Resource, async: bool) returns (ok: bool)
      modifies this
      ensures match Declare(value, async)
              case Pushed(entry) => ok && stack == old(stack) + [entry]
              case Skipped => ok && stack == old(stack)
              case TypeError => !ok && stack == old(stack)
    {
      if !value.Nullish? {
        if !value.Object? { return false; }
        var dispose := Absent;
        if async { dispose := value.asyncDispose; }
        if dispose.Absent? { dispose := value.dispose; }
        if !dispose.Callable? { return false; }
        stack := stack + [Entry(async, Some(dispose.id))];
      } else if async {
        stack := stack + [Entry(true, None)];
      }
      ok := true;
    }
  }

  // ---------- Errors ----------

  /** The failure of one entry, however it comes about. */
  function Failure(entry: Entry, does: Behaviour): Option<Thrown> {
    if entry.disposer.None? then None
    else if does.Throws? then Some(does.e)
    else if entry.async then does.rejection
    else None
  }

  /** `fail` */
  function Fail(error: Option<Error>, failure: Option<Thrown>): Option<Error> {
    match failure
    case None => error
    case Some(e) => Some(if error.Some? then Suppressed(e, error.value) else Plain(e))
  }

  /** The entry keeps its caller waiting. */
  predicate Suspends(entry: Entry, does: Behaviour) {
    entry.async && (entry.disposer.Some? ==> does.Returns?)
  }

  /** The failures of a stack, in the order in which the entries are disposed. */
  function Failures(stack: seq<Entry>, script: Script): seq<Thrown> {
    if stack == [] then []
    else
      var n := |stack| - 1;
      var rest := Failures(stack[..n], script);
      match Failure(stack[n], script(n))
      case None => rest
      case Some(e) => [e] + rest
  }

  /** The left fold of `SuppressedError` over failures. */
  function Fold(error: Option<Error>, failures: seq<Thrown>): Option<Error>
    decreases |failures|
  {
    if failures == [] then error else Fold(Fail(error, Some(failures[0])), failures[1..])
  }

  /** The error that disposing of a stack ends with. */
  function Final(stack: seq<Entry>, error: Option<Error>, script: Script): Option<Error> {
    Fold(error, Failures(stack, script))
  }

  /** The positions of a stack from the top down to `low`. */
  function Downward(low: nat, high: nat): (s: seq<nat>)
    requires low <= high
    ensures |s| == high - low
    ensures forall i | 0 <= i < |s| :: s[i] == high - 1 - i
    decreases high
  {
    if low == high then [] else [high - 1] + Downward(low, high - 1)
  }

  /** How many entries keep the caller waiting. */
  function Waits(stack: seq<Entry>, script: Script): nat {
    if stack == [] then 0
    else
      var n := |stack| - 1;
      Waits(stack[..n], script) + if Suspends(stack[n], script(n)) then 1 else 0
  }

  // ---------- What the final error tells ----------

  /** Every error that an error carries, oldest first. */
  function Carried(error: Option<Error>): seq<Thrown> {
    if error.None? then [] else Chain(error.value)
  }

  function Chain(error: Error): seq<Thrown> {
    match error
    case Plain(e) => [e]
    case Suppressed(e, s) => Chain(s) + [e]
  }

  lemma {:induction false} FoldCarries(error: Option<Error>, failures: seq<Thrown>)
    ensures Carried(Fold(error, failures)) == Carried(error) + failures
    decreases |failures|
  {
    if failures == [] {
      assert Carried(error) + [] == Carried(error);
    } else {
      var error' := Fail(error, Some(failures[0]));
      FoldCarries(error', failures[1..]);
      assert Carried(error') == Carried(error) + [failures[0]];
      assert Carried(error) + [failures[0]] + failures[1..] == Carried(error) + failures;
    }
  }

  /** No failure is lost, none is repeated, and the body's error comes first. */
  lemma {:induction false} NothingIsLost(stack: seq<Entry>, error: Option<Error>, script: Script)
    ensures Carried(Final(stack, error, script)) == Carried(error) + Failures(stack, script)
  {
    FoldCarries(error, Failures(stack, script));
  }

  /** Disposal ends without an error exactly when nothing failed. */
  lemma CleanIffNoFailure(stack: seq<Entry>, error: Option<Error>, script: Script)
    ensures Final(stack, error, script).None? <==>
            error.None? && forall i | 0 <= i < |stack| :: Failure(stack[i], script(i)).None?
  {
    NothingIsLost(stack, error, script);
    NoFailures(stack, script);
    var final := Final(stack, error, script);
    assert final.None? <==> Carried(final) == [];
  }

  lemma {:induction false} NoFailures(stack: seq<Entry>, script: Script)
    ensures Failures(stack, script) == [] <==> forall i | 0 <= i < |stack| :: Failure(stack[i], script(i)).None?
    decreases |stack|
  {
    if stack != [] {
      var n := |stack| - 1;
      NoFailures(stack[..n], script);
      assert forall i | 0 <= i < n :: stack[..n][i] == stack[i];
    }
  }

  /** Popping one entry. */
  lemma FinalStep(stack: seq<Entry>, error: Option<Error>, script: Script)
    requires stack != []
    ensures var n := |stack| - 1;
            Final(stack, error, script) == Final(stack[..n], Fail(error, Failure(stack[n], script(n))), script)
  {
    var n := |stack| - 1;
    var rest := Failures(stack[..n], script);
    match Failure(stack[n], script(n))
    case None =>
    case Some(e) => assert ([e] + rest)[1..] == rest;
  }

  lemma {:induction false} WaitsStep(stack: seq<Entry>, script: Script)
    requires stack != []
    ensures var n := |stack| - 1;
            Waits(stack, script) == Waits(stack[..n], script) + if Suspends(stack[n], script(n)) then 1 else 0
  {
  }

  lemma DownwardStep(n: nat, high: nat)
    requires n < high
    ensures Downward(n + 1, high) + [n] == Downward(n, high)
  {
  }

  // ---------- The machine ----------

  datatype Status = Suspended | Completed | Threw(error: Error)

  /** A disposal in progress.  While it is suspended its caller holds a promise, and other code
      runs. */
  class Cleanup {
    var stack: seq<Entry>
    var error: Option<Error>

    ghost const script: Script
    ghost const begun: seq<Entry>           // the stack at the end of the body
    ghost const bodyError: Option<Error>
    ghost var disposed: seq<nat>            // positions, in the order in which they were disposed
    ghost var awaiting: Option<nat>         // the position whose promise is pending
    ghost var waited: nat                   // how often the disposal was suspended

    /** The stack is exactly what has not been disposed, each position was disposed once and from
        the top down, and what remains to be done ends with the final error. */
    ghost predicate Valid()
      reads this
    {
      && |stack| <= |begun| && stack == begun[..|stack|]
      && disposed == Downward(|stack|, |begun|)
      && waited + Waits(stack, script) == Waits(begun, script)
      && (awaiting.Some? ==> awaiting.value == |stack| < |begun| && Suspends(begun[|stack|], script(|stack|)))
      && Final(stack, Fail(error, PendingFailure()), script) == Final(begun, bodyError, script)
    }

    /** What the pending promise will add. */
    ghost function PendingFailure(): Option<Thrown>
      reads this
    {
      if awaiting.Some? && awaiting.value < |begun| then Failure(begun[awaiting.value], script(awaiting.value))
      else None
    }

    constructor (stack: seq<Entry>, error: Option<Error>, ghost script: Script)
      ensures Valid() && awaiting == None && disposed == [] && waited == 0
      ensures begun == stack && bodyError == error && this.script == script
    {
      this.stack, this.error := stack, error;
      this.script, begun, bodyError := script, stack, error;
      disposed, awaiting, waited := [], None, 0;
      new;
      assert begun[..|begun|] == begun;
    }

    /** Disposes until an entry suspends or none is left.  `call` is what the disposers do. */
    method Next(call: Script) returns (status: Status)
      requires Valid() && awaiting.None? && call == script
      modifies this
      ensures Valid()
      ensures status.Suspended? <==> awaiting.Some?
      ensures !status.Suspended? ==>
                stack == [] && status == (if error.Some? then Threw(error.value) else Completed)
      ensures |stack| <= |old(stack)| && (status.Suspended? ==> |stack| < |old(stack)|)
      ensures waited == old(waited) + if status.Suspended? then 1 else 0
    {
      hide Final, Waits, Downward;
      while |stack| > 0
        invariant Valid() && awaiting.None? && |stack| <= |old(stack)| && waited == old(waited)
      {
        var n := |stack| - 1;
        var it := stack[n];
        FinalStep(stack, error, script);
        WaitsStep(stack, script);
        DownwardStep(n, |begun|);
        assert stack[..n] == begun[..n] && it == begun[n];
        stack := stack[..n];
        disposed := disposed + [n];
        if it.disposer.Some? && call(n).Throws? {
          error := Fail(error, Some(call(n).e));
        } else if it.async {
          awaiting, waited := Some(n), waited + 1;
          return Suspended;
        }
      }
      status := if error.Some? then Threw(error.value) else Completed;
    }

    /** The pending promise has settled, with a rejection or without. */
    method Resume(call: Script, rejection: Option<Thrown>) returns (status: Status)
      requires Valid() && awaiting.Some? && call == script && rejection == PendingFailure()
      modifies this
      ensures Valid()
      ensures status.Suspended? <==> awaiting.Some?
      ensures !status.Suspended? ==>
                stack == [] && status == (if error.Some? then Threw(error.value) else Completed)
      ensures |stack| <= |old(stack)| && (status.Suspended? ==> |stack| < |old(stack)|)
      ensures waited == old(waited) + if status.Suspended? then 1 else 0
    {
      error := Fail(error, rejection);
      awaiting := None;
      status := Next(call);
    }
  }

  /** A whole disposal, with whatever else runs while it is suspended left out: the outcome is
      the error of `Final`, and the caller waits once for each entry that suspends. */
  method DisposeAll(stack: seq<Entry>, error: Option<Error>, script: Script)
    returns (status: Status, waits: nat, ghost order: seq<nat>)
    ensures order == Downward(0, |stack|) && waits == Waits(stack, script)
    ensures match Final(stack, error, script)
            case None => status == Completed
            case Some(e) => status == Threw(e)
  {
    var c := new Cleanup(stack, error, script);
    status := c.Next(script);
    waits := 0;
    while status.Suspended?
      invariant c.Valid() && c.script == script && c.begun == stack && c.bodyError == error
      invariant status.Suspended? <==> c.awaiting.Some?
      invariant c.waited == waits + if status.Suspended? then 1 else 0
      invariant !status.Suspended? ==>
                  c.stack == [] && status == (if c.error.Some? then Threw(c.error.value) else Completed)
      decreases |c.stack|, if status.Suspended? then 1 else 0
    {
      waits := waits + 1;
      var n := |c.stack|;
      var it := stack[n];
      status := c.Resume(script, if it.disposer.Some? then script(n).rejection else None);
    }
    order := c.disposed;
  }
}
