/** The permission log of the authority checks: one flat list and a stack of sizes, standing for a
    stack of whole lists. */
module PermissionVisitorModel {

  datatype Op<P> = Visit(permission: P) | Repeat(permission: P) | Push | Pop | Squash

  datatype Log<P> = Log(permissions: seq<P>, sizes: seq<nat>)

  /** The checks of the source: a level must be open, and its size must lie within the list. */
  predicate Allowed<P>(log: Log<P>, op: Op<P>) {
    match op
    case Pop => log.sizes != [] && Last(log.sizes) <= |log.permissions|
    case Squash => log.sizes != []
    case _ => true
  }

  function Last<T>(s: seq<T>): T
    requires s != []
  {
    s[|s| - 1]
  }

  function Front<T>(s: seq<T>): seq<T>
    requires s != []
  {
    s[..|s| - 1]
  }

  function Step<P>(log: Log<P>, op: Op<P>): Log<P>
    requires Allowed(log, op)
  {
    match op
    case Visit(p) => log.(permissions := log.permissions + [p])
    case Repeat(_) => log
    case Push => log.(sizes := log.sizes + [|log.permissions|])
    case Pop => Log(log.permissions[..Last(log.sizes)], Front(log.sizes))
    case Squash => log.(sizes := Front(log.sizes))
  }

  // ----- the stack of whole lists

  datatype Snapshots<P> = Snapshots(current: seq<P>, saved: seq<seq<P>>)

  predicate Open<P>(v: Snapshots<P>, op: Op<P>) {
    op.Pop? || op.Squash? ==> v.saved != []
  }

  function SnapshotStep<P>(v: Snapshots<P>, op: Op<P>): Snapshots<P>
    requires Open(v, op)
  {
    match op
    case Visit(p) => v.(current := v.current + [p])
    case Repeat(_) => v
    case Push => v.(saved := v.saved + [v.current])
    case Pop => Snapshots(Last(v.saved), Front(v.saved))
    case Squash => v.(saved := Front(v.saved))
  }

  /** Every operation finds the levels it needs. */
  predicate Legal<P>(v: Snapshots<P>, ops: seq<Op<P>>)
    decreases |ops|
  {
    ops == [] || (Open(v, ops[0]) && Legal(SnapshotStep(v, ops[0]), ops[1..]))
  }

  function SnapshotRun<P>(v: Snapshots<P>, ops: seq<Op<P>>): Snapshots<P>
    requires Legal(v, ops)
    decreases |ops|
  {
    if ops == [] then v else SnapshotRun(SnapshotStep(v, ops[0]), ops[1..])
  }

  // ----- the refinement

  /** Sizes never decrease up the stack and never exceed the list. */
  ghost predicate Valid<P>(log: Log<P>) {
    && (forall i :: 0 <= i < |log.sizes| ==> log.sizes[i] <= |log.permissions|)
    && (forall i, j :: 0 <= i <= j < |log.sizes| ==> log.sizes[i] <= log.sizes[j])
  }

  function View<P>(log: Log<P>): (v: Snapshots<P>)
    requires Valid(log)
    ensures |v.saved| == |log.sizes| && forall i :: 0 <= i < |v.saved| ==> v.saved[i] == log.permissions[..log.sizes[i]]
  {
    Snapshots(log.permissions,
              seq(|log.sizes|, i requires 0 <= i < |log.sizes| => log.permissions[..log.sizes[i]]))
  }

  /** With a level open where one is needed, no check fails, the sizes stay in order, and the log
      does what the stack of whole lists does. */
  lemma StepRefines<P>(log: Log<P>, op: Op<P>)
    requires Valid(log) && Open(View(log), op)
    ensures Allowed(log, op) && Valid(Step(log, op))
    ensures View(Step(log, op)) == SnapshotStep(View(log), op)
  {
    var v, w := View(Step(log, op)), SnapshotStep(View(log), op);
    forall i | 0 <= i < |v.saved|
      ensures v.saved[i] == w.saved[i]
    {
      if op.Pop? {
        assert log.permissions[..Last(log.sizes)][..log.sizes[i]] == log.permissions[..log.sizes[i]];
      } else if op.Visit? {
        assert (log.permissions + [op.permission])[..log.sizes[i]] == log.permissions[..log.sizes[i]];
      }
    }
    assert v.saved == w.saved;
  }

  ghost predicate AllAllowed<P>(log: Log<P>, ops: seq<Op<P>>)
    decreases |ops|
  {
    ops == [] || (Allowed(log, ops[0]) && AllAllowed(Step(log, ops[0]), ops[1..]))
  }

  function Run<P>(log: Log<P>, ops: seq<Op<P>>): Log<P>
    requires AllAllowed(log, ops)
    decreases |ops|
  {
    if ops == [] then log else Run(Step(log, ops[0]), ops[1..])
  }

  /** Over every legal run the checks never fail and the log is the stack of whole lists. */
  lemma {:induction false} RunRefines<P>(log: Log<P>, ops: seq<Op<P>>)
    requires Valid(log) && Legal(View(log), ops)
    ensures AllAllowed(log, ops) && Valid(Run(log, ops))
    ensures View(Run(log, ops)) == SnapshotRun(View(log), ops)
    decreases |ops|
  {
    if ops != [] {
      StepRefines(log, ops[0]);
      RunRefines(Step(log, ops[0]), ops[1..]);
    }
  }

  /** The operations never close the lowest `n` levels. */
  ghost predicate StaysAbove<P>(v: Snapshots<P>, ops: seq<Op<P>>, n: nat)
    requires Legal(v, ops)
    decreases |ops|
  {
    n <= |v.saved| && (ops == [] || StaysAbove(SnapshotStep(v, ops[0]), ops[1..], n))
  }

  lemma {:induction false} LevelsKept<P>(v: Snapshots<P>, ops: seq<Op<P>>, n: nat)
    requires Legal(v, ops) && StaysAbove(v, ops, n)
    ensures n <= |SnapshotRun(v, ops).saved| && SnapshotRun(v, ops).saved[..n] == v.saved[..n]
    decreases |ops|
  {
    if ops != [] {
      var w := SnapshotStep(v, ops[0]);
      LevelsKept(w, ops[1..], n);
      assert w.saved[..n] == v.saved[..n];
    }
  }

  /** A pop gives back the list, and the sizes, as they were at the matching push, whatever
      happened in between. */
  lemma PopRestores<P>(log: Log<P>, ops: seq<Op<P>>)
    requires Valid(log)
    requires var pushed := View(Step(log, Push));
             Legal(pushed, ops) && StaysAbove(pushed, ops, |log.sizes| + 1) &&
             |SnapshotRun(pushed, ops).saved| == |log.sizes| + 1
    ensures var pushed := Step(log, Push);
            AllAllowed(pushed, ops) && Allowed(Run(pushed, ops), Pop) && Step(Run(pushed, ops), Pop) == log
  {
    var pushed := Step(log, Push);
    StepRefines(log, Push);
    RunRefines(pushed, ops);
    var end := Run(pushed, ops);
    LevelsKept(View(pushed), ops, |log.sizes| + 1);
    StepRefines(end, Pop);
    assert View(end).saved == View(pushed).saved == View(log).saved + [log.permissions];
    SameView(Step(end, Pop), log);
  }

  lemma SameView<P>(a: Log<P>, b: Log<P>)
    requires Valid(a) && Valid(b) && View(a) == View(b)
    ensures a == b
  {
    forall i | 0 <= i < |a.sizes|
      ensures a.sizes[i] == b.sizes[i]
    {
      assert |View(a).saved[i]| == |View(b).saved[i]|;
    }
  }

  class PermissionVisitor<P> {
    var permissions: seq<P>
    var sizeStack: seq<nat>

    ghost function State(): Log<P>
      reads this
    {
      Log(permissions, sizeStack)
    }

    constructor ()
      ensures State() == Log([], [])
    {
      permissions, sizeStack := [], [];
    }

    method Visit(permission: P)
      modifies this
      ensures State() == Step(old(State()), Op.Visit(permission))
    {
      permissions := permissions + [permission];
    }

    method PushUndo()
      modifies this
      ensures State() == Step(old(State()), Push)
    {
      sizeStack := sizeStack + [|permissions|];
    }

    /** Reading the top of an empty stack is not allowed, so a level must be open. */
    method PopUndo() returns (ok: bool)
      requires sizeStack != []
      modifies this
      ensures ok == old(Allowed(State(), Pop))
      ensures State() == if ok then Step(old(State()), Pop) else old(State())
    {
      var size := sizeStack[|sizeStack| - 1];
      ok := size <= |permissions|;
      if ok {
        permissions := permissions[..size];
        sizeStack := sizeStack[..|sizeStack| - 1];
      }
    }

    method SquashUndo() returns (ok: bool)
      modifies this
      ensures ok == old(Allowed(State(), Squash))
      ensures State() == if ok then Step(old(State()), Squash) else old(State())
    {
      ok := sizeStack != [];
      if ok {
        sizeStack := sizeStack[..|sizeStack| - 1];
      }
    }
  }
}
