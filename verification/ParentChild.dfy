/** Message hashes that a jetton wallet waits for are also entered in its parent
    wallet; the parent's completion takes them out of the jetton wallet again
    (JettonWallet, TokenWallet, TonWallet). Adding, forwarding, batches and
    deliveries are separate steps that interleave freely. Query ids are not
    followed here: no wallet removes them for another (see WaitMatching). */
module ParentChild {
  import opened Wrappers
  import Runs

  type Wallet = nat
  type Hash = nat

  /** parentOf is defined for attached jetton wallets. forwarding holds Added
      events whose handler has not run, delivering the completions that parents
      have raised and not yet delivered. */
  datatype State = State(
    parentOf: map<Wallet, Wallet>,
    childWait: set<(Wallet, Hash)>, parentWait: set<(Wallet, Hash)>,
    forwarding: multiset<(Wallet, Hash)>, delivering: multiset<(Wallet, Hash)>)

  const INITIAL := State(map[], {}, {}, multiset{}, multiset{})

  datatype Event =
    | Attach(child: Wallet, parent: Wallet)
    | AddToChild(child: Wallet, h: Hash)
    | Forward(child: Wallet, h: Hash)
    | AddToParent(parent: Wallet, h: Hash)
    | ParentBatch(parent: Wallet, matched: set<Hash>)
    | Deliver(parent: Wallet, h: Hash)

  function Raised(s: State, parent: Wallet, matched: set<Hash>): set<(Wallet, Hash)> {
    set e | e in s.parentWait && e.0 == parent && e.1 in matched
  }

  function Next(s: State, ev: Event): Option<State> {
    match ev
    case Attach(c, p) =>
      // the Parent setter; also used to move a wallet to another parent
      Some(s.(parentOf := s.parentOf[c := p]))
    case AddToChild(c, h) =>
      if c !in s.parentOf || (c, h) in s.childWait then None
      else Some(s.(childWait := s.childWait + {(c, h)}, forwarding := s.forwarding + multiset{(c, h)}))
    case Forward(c, h) =>
      if c !in s.parentOf || (c, h) !in s.forwarding then None
      else Some(s.(parentWait := s.parentWait + {(s.parentOf[c], h)}, forwarding := s.forwarding - multiset{(c, h)}))
    case AddToParent(p, h) =>
      Some(s.(parentWait := s.parentWait + {(p, h)}))
    case ParentBatch(p, matched) =>
      // any outcome of matching: the matched entries leave and are completed
      Some(s.(parentWait := s.parentWait - Raised(s, p, matched),
              delivering := s.delivering + multiset(Raised(s, p, matched))))
    case Deliver(p, h) =>
      // the completion reaches every jetton wallet subscribed to p
      if (p, h) !in s.delivering then None
      else Some(s.(delivering := s.delivering - multiset{(p, h)},
                   childWait := set e | e in s.childWait && !(e.1 == h && e.0 in s.parentOf && s.parentOf[e.0] == p)))
  }

  function Exec(s: State, run: seq<Event>): Option<State> {
    Runs.Exec(Next, s, run)
  }

  /** What keeps a child's entry alive: it is about to be entered in the parent,
      the parent waits for it, or the parent's completion is on its way. */
  ghost predicate Covered(s: State, p: Wallet, c: Wallet, h: Hash) {
    (c, h) in s.forwarding || (p, h) in s.parentWait || (p, h) in s.delivering
  }

  ghost predicate Inv(s: State) {
    forall c, h :: (c, h) in s.childWait ==> c in s.parentOf && Covered(s, s.parentOf[c], c, h)
  }

  /** Moving a wallet to another parent is harmless exactly when every entry the
      wallet holds is covered there too. */
  ghost predicate SafeMove(s: State, ev: Event) {
    ev.Attach? ==> forall h :: (ev.child, h) in s.childWait ==> Covered(s, ev.parent, ev.child, h)
  }

  lemma AttachKeepsInvIffSafe(s: State, c: Wallet, p: Wallet)
    requires Inv(s)
    ensures Inv(Next(s, Attach(c, p)).value) <==> SafeMove(s, Attach(c, p))
  {
    var s' := Next(s, Attach(c, p)).value;
    if Inv(s') {
      forall h | (c, h) in s.childWait ensures Covered(s, p, c, h) {
        assert (c, h) in s'.childWait;
        assert Covered(s', p, c, h);
      }
    }
    if SafeMove(s, Attach(c, p)) {
      forall d, h | (d, h) in s'.childWait ensures d in s'.parentOf && Covered(s', s'.parentOf[d], d, h) {
        if d == c {
          assert Covered(s, p, c, h);
        } else {
          assert Covered(s, s.parentOf[d], d, h);
        }
      }
    }
  }

  lemma StepKeepsInv(s: State, ev: Event)
    requires Inv(s) && Next(s, ev).Some? && SafeMove(s, ev)
    ensures Inv(Next(s, ev).value)
  {
    var s' := Next(s, ev).value;
    if ev.Attach? {
      AttachKeepsInvIffSafe(s, ev.child, ev.parent);
    } else {
      forall c, h | (c, h) in s'.childWait ensures c in s'.parentOf && Covered(s', s'.parentOf[c], c, h) {
        EntryStaysCovered(s, ev, c, h);
      }
    }
  }

  lemma EntryStaysCovered(s: State, ev: Event, c: Wallet, h: Hash)
    requires Inv(s) && Next(s, ev).Some? && !ev.Attach?
    requires (c, h) in Next(s, ev).value.childWait
    ensures c in s.parentOf && Covered(Next(s, ev).value, s.parentOf[c], c, h)
  {
    var s' := Next(s, ev).value;
    if (c, h) in s.childWait {
      assert Covered(s, s.parentOf[c], c, h);
    }
    if ev.ParentBatch? {
      var e := (s.parentOf[c], h);
      assert e in s.parentWait ==> e in s'.parentWait || e in Raised(s, ev.parent, ev.matched);
      assert e in Raised(s, ev.parent, ev.matched) ==> e in multiset(Raised(s, ev.parent, ev.matched));
    }
  }

  /** Every move in the run is safe when it happens. */
  ghost predicate AllSafe(s: State, run: seq<Event>)
    requires Exec(s, run).Some?
  {
    Runs.Allowed(Next, SafeMove, s, run)
  }

  lemma SafeRunKeepsInv(s: State, run: seq<Event>)
    requires Inv(s) && Exec(s, run).Some? && AllSafe(s, run)
    ensures Inv(Exec(s, run).value)
  {
    forall s: State, ev: Event | Inv(s) && SafeMove(s, ev) && Next(s, ev).Some? ensures Inv(Next(s, ev).value) {
      StepKeepsInv(s, ev);
    }
    Runs.AllowedRunKeeps(Next, SafeMove, Inv, s, run);
  }

  /** No wallet that has a parent is attached to a different one. This is about
      the events alone: a parent may be given once, and again to the same. */
  ghost predicate NoMoves(parentOf: map<Wallet, Wallet>, run: seq<Event>) {
    && (forall ev :: ev in run && ev.Attach? && ev.child in parentOf ==> parentOf[ev.child] == ev.parent)
    && (forall a, b :: a in run && b in run && a.Attach? && b.Attach? && a.child == b.child ==> a.parent == b.parent)
  }

  /** A wallet without a parent holds no forwarded hash, so its first attachment
      is safe. */
  lemma {:induction false} RunsWithoutMovesAreSafe(s: State, run: seq<Event>)
    requires Inv(s) && Exec(s, run).Some? && NoMoves(s.parentOf, run)
    ensures AllSafe(s, run)
    decreases run
  {
    if run == [] {
    } else {
      var ev, s' := run[0], Next(s, run[0]).value;
      assert SafeMove(s, ev) by {
        if ev.Attach? {
          forall h | (ev.child, h) in s.childWait ensures Covered(s, ev.parent, ev.child, h) {
            assert ev.child in s.parentOf && Covered(s, s.parentOf[ev.child], ev.child, h);
          }
        }
      }
      StepKeepsInv(s, ev);
      assert forall e :: e in run[1..] ==> e in run;
      RunsWithoutMovesAreSafe(s', run[1..]);
    }
  }

  /** In every run whose moves are safe, each hash a jetton wallet waits for is
      being entered in its parent, waited for by the parent, or completed there
      with the delivery under way. */
  lemma ChildEntriesAreCovered(run: seq<Event>, c: Wallet, h: Hash)
    requires Exec(INITIAL, run).Some? && AllSafe(INITIAL, run)
    requires (c, h) in Exec(INITIAL, run).value.childWait
    ensures var s := Exec(INITIAL, run).value;
            c in s.parentOf && Covered(s, s.parentOf[c], c, h)
  {
    SafeRunKeepsInv(INITIAL, run);
  }

  /** The same for every run in which no wallet changes its parent. */
  lemma UnmovedChildrenAreCovered(run: seq<Event>, c: Wallet, h: Hash)
    requires Exec(INITIAL, run).Some? && NoMoves(map[], run)
    requires (c, h) in Exec(INITIAL, run).value.childWait
    ensures var s := Exec(INITIAL, run).value;
            c in s.parentOf && Covered(s, s.parentOf[c], c, h)
  {
    RunsWithoutMovesAreSafe(INITIAL, run);
    SafeRunKeepsInv(INITIAL, run);
  }

  /** Once every forward has run and every completion is delivered, whatever a
      jetton wallet still waits for its parent still waits for. */
  lemma QuietChildrenMirrorParents(run: seq<Event>)
    requires Exec(INITIAL, run).Some? && (AllSafe(INITIAL, run) || NoMoves(map[], run))
    requires Exec(INITIAL, run).value.forwarding == multiset{} && Exec(INITIAL, run).value.delivering == multiset{}
    ensures var s := Exec(INITIAL, run).value;
            forall c, h :: (c, h) in s.childWait ==> c in s.parentOf && (s.parentOf[c], h) in s.parentWait
  {
    if NoMoves(map[], run) {
      RunsWithoutMovesAreSafe(INITIAL, run);
    }
    SafeRunKeepsInv(INITIAL, run);
  }

  // ----- how an entry leaves a jetton wallet

  lemma ExecFirst(s: State, run: seq<Event>)
    requires run != [] && Exec(s, run).Some?
    ensures Next(s, run[0]).Some? && Exec(Next(s, run[0]).value, run[1..]) == Exec(s, run)
  {
  }

  /** What is not added is never there again. */
  lemma {:induction false} NotReadded(s: State, run: seq<Event>, c: Wallet, h: Hash)
    requires Exec(s, run).Some? && (c, h) !in s.childWait && AddToChild(c, h) !in run
    ensures (c, h) !in Exec(s, run).value.childWait
    decreases run
  {
    if run == [] {
    } else {
      assert run == [run[0]] + run[1..];
      NotReadded(Next(s, run[0]).value, run[1..], c, h);
    }
  }

  /** Once a completion is delivered, no wallet that was subscribed to its sender
      waits for the hash, whatever happens afterwards, until it is added again. */
  lemma DeliveryClearsChildren(s: State, p: Wallet, h: Hash, after: seq<Event>, c: Wallet)
    requires Exec(s, [Deliver(p, h)] + after).Some?
    requires c in s.parentOf && s.parentOf[c] == p && AddToChild(c, h) !in after
    ensures (c, h) !in Exec(s, [Deliver(p, h)] + after).value.childWait
  {
    var run := [Deliver(p, h)] + after;
    ExecFirst(s, run);
    assert run[1..] == after;
    NotReadded(Next(s, Deliver(p, h)).value, after, c, h);
  }

  /** Nothing but its own parent's completion takes an entry out: while a wallet
      keeps its parent, an entry leaves exactly when the parent's completion of
      that hash is delivered. */
  lemma {:induction false} EntryLeavesByDeliveryOnly(s: State, run: seq<Event>, c: Wallet, h: Hash)
    requires Exec(s, run).Some? && c in s.parentOf && (c, h) in s.childWait
    requires AddToChild(c, h) !in run
    requires forall ev :: ev in run && ev.Attach? && ev.child == c ==> ev.parent == s.parentOf[c]
    ensures (c, h) in Exec(s, run).value.childWait <==> Deliver(s.parentOf[c], h) !in run
    decreases run
  {
    if run == [] {
    } else {
      var s' := Next(s, run[0]).value;
      assert run == [run[0]] + run[1..];
      if run[0] == Deliver(s.parentOf[c], h) {
        NotReadded(s', run[1..], c, h);
      } else {
        EntryLeavesByDeliveryOnly(s', run[1..], c, h);
      }
    }
  }

  // ----- how an entry leaves its parent

  predicate Enters(ev: Event, p: Wallet, h: Hash) {
    ev == AddToParent(p, h) || (ev.Forward? && ev.h == h)
  }

  predicate MatchedBy(ev: Event, p: Wallet, h: Hash) {
    ev.ParentBatch? && ev.parent == p && h in ev.matched
  }

  /** What is not entered is never there again. */
  lemma {:induction false} NotReentered(s: State, run: seq<Event>, p: Wallet, h: Hash)
    requires Exec(s, run).Some? && (p, h) !in s.parentWait
    requires forall ev :: ev in run ==> !Enters(ev, p, h)
    ensures (p, h) !in Exec(s, run).value.parentWait
    decreases run
  {
    if run == [] {
    } else {
      assert !Enters(run[0], p, h);
      NotReentered(Next(s, run[0]).value, run[1..], p, h);
    }
  }

  /** An entry leaves the parent exactly when a batch matches it. */
  lemma {:induction false} ParentEntryLeavesByMatchOnly(s: State, run: seq<Event>, p: Wallet, h: Hash)
    requires Exec(s, run).Some? && (p, h) in s.parentWait
    requires forall ev :: ev in run ==> !Enters(ev, p, h)
    ensures (p, h) in Exec(s, run).value.parentWait <==> forall ev :: ev in run ==> !MatchedBy(ev, p, h)
    decreases run
  {
    if run == [] {
    } else {
      var s' := Next(s, run[0]).value;
      assert run == [run[0]] + run[1..];
      assert (p, h) in s'.parentWait <==> !MatchedBy(run[0], p, h);
      if MatchedBy(run[0], p, h) {
        NotReentered(s', run[1..], p, h);
      } else {
        ParentEntryLeavesByMatchOnly(s', run[1..], p, h);
      }
    }
  }

  function Entered(run: seq<Event>, p: Wallet, h: Hash): nat {
    if run == [] then 0 else (if Enters(run[0], p, h) then 1 else 0) + Entered(run[1..], p, h)
  }

  /** The completions of (p, h) still possible without a new entry. */
  function Due(s: State, p: Wallet, h: Hash): nat {
    s.delivering[(p, h)] + if (p, h) in s.parentWait then 1 else 0
  }

  lemma DueStep(s: State, ev: Event, p: Wallet, h: Hash)
    requires Next(s, ev).Some?
    ensures Due(Next(s, ev).value, p, h) + (if ev == Deliver(p, h) then 1 else 0)
         <= Due(s, p, h) + if Enters(ev, p, h) then 1 else 0
    ensures ev.ParentBatch? ==> Due(Next(s, ev).value, p, h) == Due(s, p, h)
  {
    if ev.ParentBatch? {
      var raised := Raised(s, ev.parent, ev.matched);
      assert (p, h) in raised <==> (p, h) in s.parentWait && MatchedBy(ev, p, h);
      assert multiset(raised)[(p, h)] == if (p, h) in raised then 1 else 0;
    }
  }

  /** A parent completes a hash at most once for each time it was entered, and
      matching loses no completion (DueStep). */
  lemma {:induction false} CompletionsNeedEntries(s: State, run: seq<Event>, p: Wallet, h: Hash)
    requires Exec(s, run).Some?
    ensures multiset(run)[Deliver(p, h)] + Due(Exec(s, run).value, p, h) <= Due(s, p, h) + Entered(run, p, h)
    decreases run
  {
    hide Next, Due, Enters;
    if run == [] {
    } else {
      assert run == [run[0]] + run[1..];
      DueStep(s, run[0], p, h);
      CompletionsNeedEntries(Next(s, run[0]).value, run[1..], p, h);
    }
  }

  // ----- a wallet moved to another parent

  /** A hash entered in a wallet and, by forwarding, in its parent. */
  lemma ReachForwarded(c: Wallet, p: Wallet, h: Hash) returns (run: seq<Event>, s: State)
    ensures Exec(INITIAL, run) == Some(s)
    ensures s == State(map[c := p], {(c, h)}, {(p, h)}, multiset{}, multiset{})
  {
    s := INITIAL;
    run := [];
    run, s := Runs.Extend(Next, INITIAL, run, s, Attach(c, p));
    run, s := Runs.Extend(Next, INITIAL, run, s, AddToChild(c, h));
    run, s := Runs.Extend(Next, INITIAL, run, s, Forward(c, h));
    assert s.forwarding == multiset{};
  }

  /** (c, h) waits for a completion that q will never raise: q does not wait for
      h, and nothing on its way will make it. */
  ghost predicate Stranded(s: State, c: Wallet, q: Wallet, h: Hash) {
    && c in s.parentOf && s.parentOf[c] == q && (c, h) in s.childWait
    && (q, h) !in s.parentWait && (q, h) !in s.delivering
    && forall d :: (d, h) !in s.forwarding
  }

  /** Nobody enters h anew, and c is not moved again. */
  predicate Unrelated(ev: Event, c: Wallet, q: Wallet, h: Hash) {
    match ev
    case Attach(d, _) => d != c
    case AddToChild(_, k) => k != h
    case AddToParent(r, k) => !(r == q && k == h)
    case _ => true
  }

  lemma StrandedStep(s: State, c: Wallet, q: Wallet, h: Hash, ev: Event)
    requires Stranded(s, c, q, h) && Unrelated(ev, c, q, h) && Next(s, ev).Some?
    ensures Stranded(Next(s, ev).value, c, q, h)
  {
    var s' := Next(s, ev).value;
    if ev.ParentBatch? {
      assert (q, h) !in Raised(s, ev.parent, ev.matched);
      assert (q, h) !in multiset(Raised(s, ev.parent, ev.matched));
    }
  }

  /** A stranded entry stays in every continuation that does not enter the hash
      anew or move the wallet again. */
  lemma {:induction false} StrandedForever(s: State, c: Wallet, q: Wallet, h: Hash, rest: seq<Event>)
    requires Stranded(s, c, q, h) && Exec(s, rest).Some?
    requires forall ev :: ev in rest ==> Unrelated(ev, c, q, h)
    ensures Stranded(Exec(s, rest).value, c, q, h)
    decreases rest
  {
    if rest == [] {
    } else {
      StrandedStep(s, c, q, h, rest[0]);
      StrandedForever(Next(s, rest[0]).value, c, q, h, rest[1..]);
    }
  }

  /** An unsafe move through the Parent setter: the old parent completes the hash
      and nobody ever tells the wallet, however the run goes on. */
  lemma MovedWalletWaitsForever(c: Wallet, p: Wallet, q: Wallet, h: Hash) returns (run: seq<Event>, s: State)
    requires p != q
    ensures Exec(INITIAL, run) == Some(s) && Deliver(p, h) in run
    ensures forall rest :: Exec(s, rest).Some? && (forall ev :: ev in rest ==> Unrelated(ev, c, q, h)) ==>
              (c, h) in Exec(s, rest).value.childWait
  {
    run, s := ReachForwarded(c, p, h);
    run, s := Runs.Extend(Next, INITIAL, run, s, Attach(c, q));
    assert Raised(s, p, {h}) == {(p, h)};
    run, s := Runs.Extend(Next, INITIAL, run, s, ParentBatch(p, {h}));
    assert s.delivering == multiset{(p, h)};
    run, s := Runs.Extend(Next, INITIAL, run, s, Deliver(p, h));
    assert Deliver(p, h) == run[|run| - 1];
    forall rest | Exec(s, rest).Some? && (forall ev :: ev in rest ==> Unrelated(ev, c, q, h))
      ensures (c, h) in Exec(s, rest).value.childWait
    {
      StrandedForever(s, c, q, h, rest);
    }
  }
}
