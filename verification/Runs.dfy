/** Runs of a step system given by its partial step function. */
module Runs {
  import opened Wrappers

  function Exec<S, E>(next: (S, E) -> Option<S>, s: S, run: seq<E>): Option<S>
    decreases run
  {
    if run == [] then Some(s)
    else match next(s, run[0])
      case None => None
      case Some(s') => Exec(next, s', run[1..])
  }

  /** Every step of the run is allowed in the state it is taken in. */
  ghost predicate Allowed<S, E>(next: (S, E) -> Option<S>, ok: (S, E) -> bool, s: S, run: seq<E>)
    requires Exec(next, s, run).Some?
    decreases run
  {
    run == [] || (ok(s, run[0]) && Allowed(next, ok, next(s, run[0]).value, run[1..]))
  }

  ghost predicate Preserves<S(!new), E(!new)>(next: (S, E) -> Option<S>, ok: (S, E) -> bool, inv: S -> bool) {
    forall s, ev :: inv(s) && ok(s, ev) && next(s, ev).Some? ==> inv(next(s, ev).value)
  }

  /** What every allowed step preserves holds at the end of every run of allowed
      steps. */
  lemma {:induction false} AllowedRunKeeps<S(!new), E(!new)>(
    next: (S, E) -> Option<S>, ok: (S, E) -> bool, inv: S -> bool, s: S, run: seq<E>)
    requires inv(s) && Exec(next, s, run).Some? && Allowed(next, ok, s, run)
    requires Preserves(next, ok, inv)
    ensures inv(Exec(next, s, run).value)
    decreases run
  {
    if run == [] {
    } else {
      AllowedRunKeeps(next, ok, inv, next(s, run[0]).value, run[1..]);
    }
  }

  /** A run all of whose events are allowed in any state. */
  lemma {:induction false} AllowedAnywhere<S(!new), E(!new)>(
    next: (S, E) -> Option<S>, ok: (S, E) -> bool, s: S, run: seq<E>)
    requires Exec(next, s, run).Some?
    requires forall s, ev :: ev in run ==> ok(s, ev)
    ensures Allowed(next, ok, s, run)
    decreases run
  {
    if run == [] {
    } else {
      AllowedAnywhere(next, ok, next(s, run[0]).value, run[1..]);
    }
  }

  /** What every step preserves holds at the end of every run. */
  lemma RunKeeps<S(!new), E(!new)>(next: (S, E) -> Option<S>, inv: S -> bool, s: S, run: seq<E>)
    requires inv(s) && Exec(next, s, run).Some?
    requires Preserves(next, (_, _) => true, inv)
    ensures inv(Exec(next, s, run).value)
  {
    AllowedAnywhere(next, (_, _) => true, s, run);
    AllowedRunKeeps(next, (_, _) => true, inv, s, run);
  }

  lemma {:induction false} ExecAppend<S, E>(next: (S, E) -> Option<S>, s: S, run: seq<E>, ev: E)
    requires Exec(next, s, run).Some?
    ensures Exec(next, s, run + [ev]) == next(Exec(next, s, run).value, ev)
    decreases run
  {
    if run == [] {
      assert [] + [ev] == [ev];
      assert [ev][1..] == [];
    } else {
      ExecAppend(next, next(s, run[0]).value, run[1..], ev);
      assert (run + [ev])[1..] == run[1..] + [ev];
    }
  }

  /** One more step of a run that has reached s. */
  lemma Extend<S, E>(next: (S, E) -> Option<S>, start: S, run: seq<E>, s: S, ev: E) returns (run': seq<E>, s': S)
    requires Exec(next, start, run) == Some(s) && next(s, ev).Some?
    ensures run' == run + [ev] && Exec(next, start, run') == Some(s') && next(s, ev) == Some(s')
  {
    ExecAppend(next, start, run, ev);
    run', s' := run + [ev], next(s, ev).value;
  }
}
