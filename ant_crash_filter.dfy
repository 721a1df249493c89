/**
 * The current crash filter (`world_step/ant_crash_filter.rs`): a world-step
 * decorator that turns the orders submitted this turn into a list of orders
 * no two of which send ants into the same cell.
 *
 * Orders are read in submission order against three pieces of state: the
 * ants that have not moved yet, the cells already claimed by an emitted
 * order, and one waiting order per cell still occupied by an unmoved ant.
 * An order into a free cell is emitted at once, and emitting it releases the
 * chain of orders that were waiting for the cell its ant has just left
 * (a convoy of ants walking in line).
 *
 * The resolver is specified by the fold `Resolve` over the pure `Step`, and
 * `ResolveOrders` is the loop that computes it. Submitted orders must have
 * pairwise distinct sources: with two orders from one ant the release loop
 * of the source can run forever.
 */
module CrashFilter {
  import opened Grid
  import opened Sequences
  import opened BasicWorldSteps

  /** The resolver's state: unmoved ants, claimed cells, waiting orders
      (keyed by the cell they wait for) and the orders emitted so far. */
  datatype Resolution = Resolution(
    unmoved: set<Position>,
    moved: set<Position>,
    awaiting: map<Position, Order>,
    executed: seq<Order>)

  predicate DistinctSources(orders: seq<Order>)
  {
    forall i, j :: 0 <= i < j < |orders| ==> orders[i].pos != orders[j].pos
  }

  predicate DistinctTargets(orders: seq<Order>, size: Position)
    requires ValidSize(size)
  {
    forall i, j :: 0 <= i < j < |orders| ==>
      TargetPos(orders[i], size) != TargetPos(orders[j], size)
  }

  function Targets(orders: seq<Order>, size: Position): set<Position>
    requires ValidSize(size)
  {
    set o | o in orders :: TargetPos(o, size)
  }

  /**
   * The release cascade: while an order waits for the cell `cursor` (just
   * left by the ant of the last emitted order), emit it, claim `cursor`, and
   * continue with the cell its own ant leaves. The second condition never
   * fails when sources are distinct (see `ReleaseStep`); it only makes the
   * definition total.
   */
  function Cascade(awaiting: map<Position, Order>, cursor: Position,
                   moved: set<Position>, executed: seq<Order>)
    : (set<Position>, seq<Order>)
    decreases awaiting.Values - Elements(executed)
  {
    if cursor in awaiting && awaiting[cursor] !in executed then
      var w := awaiting[cursor];
      ElementsAppend(executed, w);
      Cascade(awaiting, w.pos, moved + {cursor}, executed + [w])
    else
      (moved, executed)
  }

  /** One submitted order: ignored, dropped, deferred or emitted. */
  function Step(st: Resolution, o: Order, size: Position): Resolution
    requires ValidSize(size)
  {
    if o.pos !in st.unmoved then st
    else
      var target := TargetPos(o, size);
      if target in st.moved then st
      else if target in st.unmoved then
        if target in st.awaiting then st
        else st.(awaiting := st.awaiting[target := o])
      else
        var (moved', executed') :=
          Cascade(st.awaiting, o.pos, st.moved + {target}, st.executed + [o]);
        Resolution(st.unmoved - {o.pos}, moved', st.awaiting, executed')
  }

  function Initial(ants: seq<Position>): Resolution
  {
    Resolution(Elements(ants), {}, map[], [])
  }

  /** The state after the given orders, in submission order. */
  function Run(given: seq<Order>, ants: seq<Position>, size: Position): Resolution
    requires ValidSize(size)
    decreases |given|
  {
    if given == [] then Initial(ants)
    else Step(Run(given[..|given| - 1], ants, size), given[|given| - 1], size)
  }

  /** `get_orders`: the emitted orders, in emission order. */
  function Resolve(given: seq<Order>, ants: seq<Position>, size: Position): seq<Order>
    requires ValidSize(size)
  {
    Run(given, ants, size).executed
  }

  // ---------------------------------------------------------------------
  // Invariant of the resolver

  /** `e` is the order waiting for its own target cell. */
  predicate Waiting(awaiting: map<Position, Order>, e: Order, size: Position)
    requires ValidSize(size)
  {
    TargetPos(e, size) in awaiting && awaiting[TargetPos(e, size)] == e
  }

  /** Where the state's orders and ants come from. */
  ghost predicate Provenance(st: Resolution, done: seq<Order>, ants: seq<Position>, size: Position)
    requires ValidSize(size)
  {
    && DistinctSources(done)
    && (forall e :: e in st.executed ==> e in done && e.pos in ants)
    && (forall k :: k in st.awaiting ==>
          TargetPos(st.awaiting[k], size) == k && st.awaiting[k] in done &&
          st.awaiting[k].pos in ants)
    && (forall p :: p in st.unmoved ==> p in ants)
  }

  /** A released order directly follows the order that vacated its target. */
  ghost predicate ReleasedAfterBlocker(st: Resolution, size: Position)
    requires ValidSize(size)
  {
    forall j :: 0 <= j < |st.executed| && Waiting(st.awaiting, st.executed[j], size) ==>
      0 < j && st.executed[j - 1].pos == TargetPos(st.executed[j], size)
  }

  /** An order emitted at once went to a cell no unmoved ant holds. */
  ghost predicate DirectIntoFreeCells(st: Resolution, size: Position)
    requires ValidSize(size)
  {
    forall j :: 0 <= j < |st.executed| && !Waiting(st.awaiting, st.executed[j], size) ==>
      TargetPos(st.executed[j], size) !in st.unmoved
  }

  /** Emitted orders claim their targets, each once. */
  ghost predicate Claims(st: Resolution, size: Position)
    requires ValidSize(size)
  {
    && NoDuplicates(st.executed)
    && st.moved == Targets(st.executed, size)
    && DistinctTargets(st.executed, size)
  }

  /** Everything the resolver keeps true, except the release obligation. */
  ghost predicate Core(st: Resolution, done: seq<Order>, ants: seq<Position>, size: Position)
    requires ValidSize(size)
  {
    && Provenance(st, done, ants, size)
    && ReleasedAfterBlocker(st, size)
    && DirectIntoFreeCells(st, size)
    && Claims(st, size)
  }

  /** Between orders: once a blocking ant has left, its waiter was released. */
  ghost predicate Inv(st: Resolution, done: seq<Order>, ants: seq<Position>, size: Position)
    requires ValidSize(size)
  {
    && Core(st, done, ants, size)
    && (forall k :: k in st.awaiting && k !in st.unmoved ==> st.awaiting[k] in st.executed)
  }

  /** The release obligation while the cascade from `s0` is under way. */
  ghost predicate PendingRelease(st: Resolution, cursor: Position, s0: Position, size: Position)
    requires ValidSize(size)
  {
    && (forall k :: k in st.awaiting && k !in st.unmoved && k != s0 ==>
          st.awaiting[k] in st.executed)
    && (s0 in st.awaiting && st.awaiting[s0] !in st.executed ==> cursor == s0)
    && (forall j :: 0 <= j < |st.executed| && !Waiting(st.awaiting, st.executed[j], size) ==>
          TargetPos(st.executed[j], size) != s0)
  }

  /** During the cascade started by the ant that left `s0`. */
  ghost predicate CascadeInv(st: Resolution, cursor: Position, s0: Position,
                             done: seq<Order>, ants: seq<Position>, size: Position)
    requires ValidSize(size)
  {
    && Core(st, done, ants, size)
    && |st.executed| > 0 && cursor == st.executed[|st.executed| - 1].pos
    && PendingRelease(st, cursor, s0, size)
  }

  lemma SameSource(done: seq<Order>, a: Order, b: Order)
    requires DistinctSources(done) && a in done && b in done && a.pos == b.pos
    ensures a == b
  {
    var i :| 0 <= i < |done| && done[i] == a;
    var j :| 0 <= j < |done| && done[j] == b;
    assert !(i < j) && !(j < i);
  }

  /** An order appended to orders with distinct sources is new, and so is its source. */
  lemma FreshOrder(done: seq<Order>, o: Order)
    requires DistinctSources(done + [o])
    ensures DistinctSources(done)
    ensures forall e :: e in done ==> e.pos != o.pos && e != o
  {
    var done' := done + [o];
    forall e | e in done
      ensures e.pos != o.pos
    {
      var i :| 0 <= i < |done| && done[i] == e;
      assert done'[i] == e && done'[|done|] == o;
    }
    assert forall i :: 0 <= i < |done| ==> done'[i] == done[i];
  }

  /** The order waiting for the cell just vacated has not been emitted. */
  lemma ReleaseIsFresh(st: Resolution, cursor: Position, done: seq<Order>,
                       ants: seq<Position>, size: Position)
    requires ValidSize(size)
    requires Provenance(st, done, ants, size) && ReleasedAfterBlocker(st, size)
    requires NoDuplicates(st.executed)
    requires |st.executed| > 0 && cursor == st.executed[|st.executed| - 1].pos
    requires cursor in st.awaiting
    ensures st.awaiting[cursor] !in st.executed
  {
    var ex := st.executed;
    var w := st.awaiting[cursor];
    var n := |ex|;
    assert Waiting(st.awaiting, w, size);
    if j :| 0 <= j < n && ex[j] == w {
      assert 0 < j && ex[j - 1].pos == cursor;
      SameSource(done, ex[j - 1], ex[n - 1]);
      assert false;
    }
  }

  /** No emitted order targets the cell whose waiting order is released. */
  lemma ReleaseTargetIsFree(st: Resolution, cursor: Position, s0: Position,
                            done: seq<Order>, ants: seq<Position>, size: Position)
    requires ValidSize(size)
    requires Provenance(st, done, ants, size) && DirectIntoFreeCells(st, size)
    requires PendingRelease(st, cursor, s0, size)
    requires cursor in st.awaiting && st.awaiting[cursor] !in st.executed
    ensures cursor !in Targets(st.executed, size)
  {
    var aw, ex := st.awaiting, st.executed;
    forall j | 0 <= j < |ex|
      ensures TargetPos(ex[j], size) != cursor
    {
      if Waiting(aw, ex[j], size) {
      } else if cursor == s0 {
      } else {
        assert TargetPos(ex[j], size) !in st.unmoved;
      }
    }
  }

  /** The state after releasing `w`, the order waiting for `cursor`. */
  function Release(st: Resolution, cursor: Position, w: Order): Resolution
  {
    st.(moved := st.moved + {cursor}, executed := st.executed + [w])
  }

  lemma ReleaseKeepsClaims(st: Resolution, cursor: Position, size: Position)
    requires ValidSize(size) && Claims(st, size)
    requires cursor in st.awaiting && TargetPos(st.awaiting[cursor], size) == cursor
    requires st.awaiting[cursor] !in st.executed
    requires cursor !in Targets(st.executed, size)
    ensures Claims(Release(st, cursor, st.awaiting[cursor]), size)
  {
    var ex := st.executed;
    var ex' := ex + [st.awaiting[cursor]];
    assert forall j :: 0 <= j < |ex| ==> ex'[j] == ex[j];
    assert Targets(ex', size) == Targets(ex, size) + {cursor};
  }

  lemma ReleaseKeepsOrder(st: Resolution, cursor: Position, size: Position)
    requires ValidSize(size) && ReleasedAfterBlocker(st, size) && DirectIntoFreeCells(st, size)
    requires cursor in st.awaiting && TargetPos(st.awaiting[cursor], size) == cursor
    requires |st.executed| > 0 && cursor == st.executed[|st.executed| - 1].pos
    ensures ReleasedAfterBlocker(Release(st, cursor, st.awaiting[cursor]), size)
    ensures DirectIntoFreeCells(Release(st, cursor, st.awaiting[cursor]), size)
  {
    var ex := st.executed;
    var ex' := ex + [st.awaiting[cursor]];
    assert forall j :: 0 <= j < |ex| ==> ex'[j] == ex[j];
  }

  lemma ReleaseKeepsPending(st: Resolution, cursor: Position, s0: Position, size: Position)
    requires ValidSize(size) && PendingRelease(st, cursor, s0, size)
    requires cursor in st.awaiting && TargetPos(st.awaiting[cursor], size) == cursor
    ensures var w := st.awaiting[cursor];
      PendingRelease(Release(st, cursor, w), w.pos, s0, size)
  {
    var ex := st.executed;
    var ex' := ex + [st.awaiting[cursor]];
    assert forall j :: 0 <= j < |ex| ==> ex'[j] == ex[j];
  }

  /**
   * One round of the cascade: the order waiting for `cursor` has not been
   * emitted yet (so the loop needs no visited check), and releasing it keeps
   * the cascade invariant.
   */
  lemma ReleaseStep(st: Resolution, cursor: Position, s0: Position,
                    done: seq<Order>, ants: seq<Position>, size: Position)
    requires ValidSize(size)
    requires CascadeInv(st, cursor, s0, done, ants, size)
    requires cursor in st.awaiting
    ensures st.awaiting[cursor] !in st.executed
    ensures var w := st.awaiting[cursor];
      CascadeInv(Release(st, cursor, w), w.pos, s0, done, ants, size)
  {
    ReleaseIsFresh(st, cursor, done, ants, size);
    ReleaseTargetIsFree(st, cursor, s0, done, ants, size);
    ReleaseKeepsClaims(st, cursor, size);
    ReleaseKeepsOrder(st, cursor, size);
    ReleaseKeepsPending(st, cursor, s0, size);
    var w := st.awaiting[cursor];
    assert Provenance(Release(st, cursor, w), done, ants, size);
  }

  /** The whole cascade re-establishes the invariant between orders. */
  lemma {:induction false} CascadeKeepsInv(st: Resolution, cursor: Position, s0: Position,
                                           done: seq<Order>, ants: seq<Position>, size: Position)
    requires ValidSize(size)
    requires CascadeInv(st, cursor, s0, done, ants, size)
    ensures var (moved', executed') := Cascade(st.awaiting, cursor, st.moved, st.executed);
      Inv(st.(moved := moved', executed := executed'), done, ants, size)
    decreases st.awaiting.Values - Elements(st.executed)
  {
    if cursor in st.awaiting {
      ReleaseStep(st, cursor, s0, done, ants, size);
      var w := st.awaiting[cursor];
      ElementsAppend(st.executed, w);
      CascadeKeepsInv(Release(st, cursor, w), w.pos, s0, done, ants, size);
    }
  }

  /** Emitting an order at once starts a cascade in a state that satisfies
      the cascade invariant. */
  lemma EmitStart(st: Resolution, o: Order, done: seq<Order>, ants: seq<Position>, size: Position)
    requires ValidSize(size)
    requires Inv(st, done, ants, size) && DistinctSources(done + [o])
    requires o.pos in st.unmoved
    requires TargetPos(o, size) !in st.moved && TargetPos(o, size) !in st.unmoved
    ensures CascadeInv(Resolution(st.unmoved - {o.pos}, st.moved + {TargetPos(o, size)},
                                  st.awaiting, st.executed + [o]),
                       o.pos, o.pos, done + [o], ants, size)
  {
    var done' := done + [o];
    var ex := st.executed;
    var ex' := ex + [o];
    var n := |ex|;
    FreshOrder(done, o);
    assert !Waiting(st.awaiting, o, size);
    assert forall j :: 0 <= j < n ==> ex'[j] == ex[j];
    assert Targets(ex', size) == Targets(ex, size) + {TargetPos(o, size)};
    forall k | k in st.awaiting
      ensures st.awaiting[k] in done'
    {
    }
  }

  /** One order keeps the invariant between orders. */
  lemma StepKeepsInv(st: Resolution, o: Order, done: seq<Order>, ants: seq<Position>, size: Position)
    requires ValidSize(size)
    requires Inv(st, done, ants, size) && DistinctSources(done + [o])
    ensures Inv(Step(st, o, size), done + [o], ants, size)
  {
    var done' := done + [o];
    FreshOrder(done, o);
    if o.pos !in st.unmoved {
    } else {
      var target := TargetPos(o, size);
      if target in st.moved {
      } else if target in st.unmoved {
        if target !in st.awaiting {
          var aw' := st.awaiting[target := o];
          forall e | e in st.executed
            ensures Waiting(aw', e, size) <==> Waiting(st.awaiting, e, size)
          {
          }
        }
      } else {
        EmitStart(st, o, done, ants, size);
        CascadeKeepsInv(Resolution(st.unmoved - {o.pos}, st.moved + {target},
                                   st.awaiting, st.executed + [o]),
                        o.pos, o.pos, done', ants, size);
      }
    }
  }

  lemma {:induction false} RunInv(given: seq<Order>, ants: seq<Position>, size: Position)
    requires ValidSize(size) && DistinctSources(given)
    ensures Inv(Run(given, ants, size), given, ants, size)
    decreases |given|
  {
    if given != [] {
      var n := |given| - 1;
      assert given == given[..n] + [given[n]];
      RunInv(given[..n], ants, size);
      StepKeepsInv(Run(given[..n], ants, size), given[n], given[..n], ants, size);
    }
  }

  /**
   * What the resolver promises: every emitted order was submitted, by one of
   * the bot's ants, none is emitted twice, and no two emitted orders send
   * ants into the same cell.
   */
  lemma ResolveIsCollisionFree(given: seq<Order>, ants: seq<Position>, size: Position)
    requires ValidSize(size) && DistinctSources(given)
    ensures var r := Resolve(given, ants, size);
      && (forall o :: o in r ==> o in given && o.pos in ants)
      && NoDuplicates(r)
      && DistinctTargets(r, size)
      && (forall e :: e in r && TargetPos(e, size) in ants ==>
            exists e' :: e' in r && e'.pos == TargetPos(e, size))
  {
    RunInv(given, ants, size);
    RunLeftByEmitting(given, ants, size);
    var st := Run(given, ants, size);
    forall e | e in st.executed && TargetPos(e, size) in ants
      ensures exists e' :: e' in st.executed && e'.pos == TargetPos(e, size)
    {
      var j :| 0 <= j < |st.executed| && st.executed[j] == e;
      if Waiting(st.awaiting, e, size) {
        assert st.executed[j - 1] in st.executed;
      } else {
        assert TargetPos(e, size) in Sources(st.executed);
      }
    }
  }

  /** Every ant of `ants` that has left the unmoved set is the source of an
      emitted order (released ants may stay in the unmoved set). */
  ghost predicate LeftByEmitting(st: Resolution, ants: seq<Position>)
  {
    forall p :: p in ants && p !in st.unmoved ==> p in Sources(st.executed)
  }

  /** The release cascade only appends to the emitted orders. */
  lemma {:induction false} CascadeExtends(awaiting: map<Position, Order>, cursor: Position,
                                          moved: set<Position>, executed: seq<Order>)
    ensures executed <= Cascade(awaiting, cursor, moved, executed).1
    decreases awaiting.Values - Elements(executed)
  {
    if cursor in awaiting && awaiting[cursor] !in executed {
      var w := awaiting[cursor];
      ElementsAppend(executed, w);
      CascadeExtends(awaiting, w.pos, moved + {cursor}, executed + [w]);
    }
  }

  /** An ant leaves the unmoved set only when its own order is emitted. */
  lemma {:induction false} RunLeftByEmitting(given: seq<Order>, ants: seq<Position>, size: Position)
    requires ValidSize(size)
    ensures LeftByEmitting(Run(given, ants, size), ants)
    decreases |given|
  {
    if given != [] {
      var n := |given| - 1;
      var st := Run(given[..n], ants, size);
      var o := given[n];
      RunLeftByEmitting(given[..n], ants, size);
      var target := TargetPos(o, size);
      if o.pos in st.unmoved && target !in st.moved && target !in st.unmoved {
        CascadeExtends(st.awaiting, o.pos, st.moved + {target}, st.executed + [o]);
        var st' := Step(st, o, size);
        assert (st.executed + [o])[|st.executed|] == o;
        forall p | p in ants && p !in st'.unmoved
          ensures p in Sources(st'.executed)
        {
          if p == o.pos {
            assert o in st'.executed;
          } else {
            var e :| e in st.executed && e.pos == p;
            assert e in st'.executed;
          }
        }
      }
    }
  }

  /** Orders of distinct ants into distinct cells that hold none of the
      bot's ants; such orders all pass, in order (`IndependentMovesPass`). */
  predicate Independent(given: seq<Order>, ants: seq<Position>, size: Position)
    requires ValidSize(size)
  {
    && DistinctSources(given)
    && DistinctTargets(given, size)
    && (forall o :: o in given ==> o.pos in ants && TargetPos(o, size) !in ants)
  }

  function Sources(orders: seq<Order>): set<Position>
  {
    set o | o in orders :: o.pos
  }

  /** The last of orders with distinct sources and targets shares neither
      with an earlier one. */
  lemma LastIsFresh(given: seq<Order>, size: Position)
    requires ValidSize(size) && given != []
    requires DistinctSources(given) && DistinctTargets(given, size)
    ensures var n := |given| - 1;
      given[n].pos !in Sources(given[..n]) &&
      TargetPos(given[n], size) !in Targets(given[..n], size)
  {
    var n := |given| - 1;
    forall q | q in given[..n]
      ensures q.pos != given[n].pos && TargetPos(q, size) != TargetPos(given[n], size)
    {
      var i :| 0 <= i < n && given[..n][i] == q;
      assert given[i] == q;
    }
  }

  lemma {:induction false} IndependentMovesPass(given: seq<Order>, ants: seq<Position>, size: Position)
    requires ValidSize(size) && Independent(given, ants, size)
    ensures Resolve(given, ants, size) == given
    ensures Run(given, ants, size) ==
      Resolution(Elements(ants) - Sources(given), Targets(given, size), map[], given)
    decreases |given|
  {
    if given == [] {
      assert Sources(given) == {};
    } else {
      var n := |given| - 1;
      var prefix := given[..n];
      var o := given[n];
      var t := TargetPos(o, size);
      assert given == prefix + [o];
      assert Independent(prefix, ants, size);
      IndependentMovesPass(prefix, ants, size);
      var st := Run(prefix, ants, size);
      LastIsFresh(given, size);
      assert o in given;
      assert o.pos in st.unmoved && t !in st.moved && t !in st.unmoved;
      assert Cascade(st.awaiting, o.pos, st.moved + {t}, st.executed + [o]) ==
             (st.moved + {t}, given);
      assert Run(given, ants, size) == Step(st, o, size);
      SourcesTargetsAppend(prefix, o, size);
      assert Elements(ants) - Sources(given) == (Elements(ants) - Sources(prefix)) - {o.pos};
    }
  }

  lemma SourcesTargetsAppend(orders: seq<Order>, o: Order, size: Position)
    requires ValidSize(size)
    ensures Sources(orders + [o]) == Sources(orders) + {o.pos}
    ensures Targets(orders + [o], size) == Targets(orders, size) + {TargetPos(o, size)}
  {
    assert forall e :: e in orders + [o] <==> e in orders || e == o;
  }

  // ---------------------------------------------------------------------
  // The resolver loop

  /**
   * `get_orders`: reads the submitted orders once, in submission order, and
   * returns exactly `Resolve`'s result, which is collision free.
   */
  method ResolveOrders(given: seq<Order>, ants: seq<Position>, size: Position)
    returns (executed: seq<Order>)
    requires ValidSize(size) && DistinctSources(given)
    ensures executed == Resolve(given, ants, size)
    ensures forall o :: o in executed ==> o in given && o.pos in ants
    ensures NoDuplicates(executed)
    ensures DistinctTargets(executed, size)
    ensures forall e :: e in executed && TargetPos(e, size) in ants ==>
      exists e' :: e' in executed && e'.pos == TargetPos(e, size)
  {
    var unmoved := Elements(ants);
    var moved: set<Position> := {};
    var awaiting: map<Position, Order> := map[];
    executed := [];
    for i := 0 to |given|
      invariant Resolution(unmoved, moved, awaiting, executed) == Run(given[..i], ants, size)
    {
      ghost var st := Resolution(unmoved, moved, awaiting, executed);
      var o := given[i];
      assert given[..i + 1] == given[..i] + [o];
      assert DistinctSources(given[..i + 1]) && DistinctSources(given[..i]);
      RunInv(given[..i], ants, size);
      if o.pos in unmoved {
        var target := TargetPos(o, size);
        if target in moved {
          // dropped: the cell is already claimed
        } else if target in unmoved {
          if target !in awaiting {
            awaiting := awaiting[target := o];
          }
        } else {
          EmitStart(st, o, given[..i], ants, size);
          unmoved := unmoved - {o.pos};
          moved, executed := RunCascade(awaiting, o.pos, moved + {target}, executed + [o],
                                        unmoved, given[..i + 1], ants, size);
        }
      }
    }
    assert given[..|given|] == given;
    ResolveIsCollisionFree(given, ants, size);
  }

  /** The release loop: emits each waiting order in turn, as `Cascade` does. */
  method RunCascade(awaiting: map<Position, Order>, s0: Position, moved: set<Position>, executed: seq<Order>,
                    ghost unmoved: set<Position>, ghost done: seq<Order>, ghost ants: seq<Position>,
                    size: Position)
    returns (moved2: set<Position>, executed2: seq<Order>)
    requires ValidSize(size)
    requires CascadeInv(Resolution(unmoved, moved, awaiting, executed), s0, s0, done, ants, size)
    ensures (moved2, executed2) == Cascade(awaiting, s0, moved, executed)
  {
    moved2, executed2 := moved, executed;
    var source := s0;
    while source in awaiting
      invariant CascadeInv(Resolution(unmoved, moved2, awaiting, executed2), source, s0, done, ants, size)
      invariant Cascade(awaiting, source, moved2, executed2) == Cascade(awaiting, s0, moved, executed)
      decreases awaiting.Values - Elements(executed2)
    {
      ReleaseStep(Resolution(unmoved, moved2, awaiting, executed2), source, s0, done, ants, size);
      var w := awaiting[source];
      ElementsAppend(executed2, w);
      executed2 := executed2 + [w];
      moved2 := moved2 + {source};
      source := w.pos;
    }
  }

  // ---------------------------------------------------------------------
  // The decorator

  /** Directions of `dirs`, in order, whose step from `p` does not land on
      the target of any submitted order. */
  function FreeDirections(dirs: seq<Direction>, p: Position, size: Position,
                          given: seq<Order>): (r: seq<Direction>)
    requires ValidSize(size)
    ensures IsSubsequence(r, dirs)
    ensures forall d :: d in r <==> d in dirs && Neighbour(p, d, size) !in Targets(given, size)
  {
    if dirs == [] then []
    else
      var rest := FreeDirections(dirs[1..], p, size, given);
      assert dirs == [dirs[0]] + dirs[1..];
      if Neighbour(p, dirs[0], size) !in Targets(given, size) then
        assert ([dirs[0]] + rest)[1..] == rest;
        [dirs[0]] + rest
      else
        SubsequenceCons(rest, dirs[1..], dirs[0]);
        rest
  }

  class AntCrashFilter {
    const delegate: BasicWorldStep

    constructor(delegate: BasicWorldStep)
      ensures this.delegate == delegate
    {
      this.delegate := delegate;
    }

    /** `add_order` appends to the delegate's orders and nothing else. */
    method AddOrder(o: Order)
      modifies delegate
      ensures delegate.givenOrders == old(delegate.givenOrders) + [o]
    {
      delegate.AddOrder(o);
    }

    /** The collision-free subset of the submitted orders. */
    method GetOrders() returns (executed: seq<Order>)
      requires ValidSize(Size()) && DistinctSources(delegate.givenOrders)
      ensures executed == Resolve(delegate.givenOrders, AllMyAnts(), Size())
      ensures forall o :: o in executed ==> o in delegate.givenOrders && o.pos in AllMyAnts()
      ensures NoDuplicates(executed)
      ensures DistinctTargets(executed, Size())
      ensures forall e :: e in executed && TargetPos(e, Size()) in AllMyAnts() ==>
        exists e' :: e' in executed && e'.pos == TargetPos(e, Size())
    {
      executed := ResolveOrders(delegate.GetOrders(), delegate.AllMyAnts(), Size());
    }

    function Size(): Position
    {
      delegate.Size()
    }

    function AllMyAnts(): seq<Position>
    {
      delegate.AllMyAnts()
    }

    function TileAt(p: Position): Tile
    {
      delegate.TileAt(p)
    }

    function GetPositions(t: Tile): seq<Position>
    {
      delegate.GetPositions(t)
    }

    /** The delegate's directions minus those stepping onto a cell some
        submitted order already targets. */
    function AvailableDirections(p: Position): (r: seq<Direction>)
      requires ValidSize(Size())
      reads delegate
      ensures IsSubsequence(r, delegate.AvailableDirections(p))
      ensures forall d :: d in r <==>
        forall o :: o in delegate.givenOrders ==> TargetPos(o, Size()) != Neighbour(p, d, Size())
    {
      FreeDirections(delegate.AvailableDirections(p), p, Size(), delegate.GetOrders())
    }
  }
}

/** The crash filter's unit tests, replayed on the resolver's specification. */
module CrashFilterScenarios {
  import opened Grid
  import opened Sequences
  import opened CrashFilter

  function P(row: nat, col: nat): Position
  {
    Position(row, col)
  }

  function Convoy(): seq<Order>
  {
    [Order(P(0, 0), East), Order(P(0, 1), East), Order(P(0, 2), East), Order(P(0, 3), East)]
  }

  function ConvoyWaiting(): map<Position, Order>
  {
    map[P(0, 1) := Convoy()[0], P(0, 2) := Convoy()[1], P(0, 3) := Convoy()[2]]
  }

  /** The first three orders of the convoy all wait for the ant ahead. */
  lemma ConvoyWaits(ants: seq<Position>, size: Position)
    requires ants == [P(0, 0), P(0, 1), P(0, 2), P(0, 3)] && size == P(1, 5)
    ensures Run(Convoy()[..3], ants, size) == Resolution(Elements(ants), {}, ConvoyWaiting(), [])
  {
    var given := Convoy();
    var u := Elements(ants);
    assert u == {P(0, 0), P(0, 1), P(0, 2), P(0, 3)};
    var a1 := map[P(0, 1) := given[0]];
    var a2 := a1[P(0, 2) := given[1]];
    assert Run(given[..1], ants, size) == Resolution(u, {}, a1, []) by {
      assert given[..1][..0] == [];
    }
    assert Run(given[..2], ants, size) == Resolution(u, {}, a2, []) by {
      assert given[..2][..1] == given[..1];
    }
    assert given[..3][..2] == given[..2];
    assert a2[P(0, 3) := given[2]] == ConvoyWaiting();
  }

  /** Emitting the front order releases the three waiting ones, back to front. */
  lemma ConvoyCascade()
    ensures var given := Convoy();
      Cascade(ConvoyWaiting(), P(0, 3), {P(0, 4)}, [given[3]]) ==
        ({P(0, 4), P(0, 3), P(0, 2), P(0, 1)}, [given[3], given[2], given[1], given[0]])
  {
    var given := Convoy();
    var aw := ConvoyWaiting();
    assert given[2] !in [given[3]] && given[1] !in [given[3], given[2]];
    assert given[0] !in [given[3], given[2], given[1]];
    assert aw[P(0, 3)] == given[2] && aw[P(0, 2)] == given[1] && aw[P(0, 1)] == given[0];
    assert P(0, 0) !in aw;
    calc {
      Cascade(aw, P(0, 3), {P(0, 4)}, [given[3]]);
      { assert [given[3]] + [given[2]] == [given[3], given[2]];
        assert {P(0, 4)} + {P(0, 3)} == {P(0, 4), P(0, 3)}; }
      Cascade(aw, P(0, 2), {P(0, 4), P(0, 3)}, [given[3], given[2]]);
      { assert [given[3], given[2]] + [given[1]] == [given[3], given[2], given[1]];
        assert {P(0, 4), P(0, 3)} + {P(0, 2)} == {P(0, 4), P(0, 3), P(0, 2)}; }
      Cascade(aw, P(0, 1), {P(0, 4), P(0, 3), P(0, 2)}, [given[3], given[2], given[1]]);
      { assert [given[3], given[2], given[1]] + [given[0]] ==
               [given[3], given[2], given[1], given[0]];
        assert {P(0, 4), P(0, 3), P(0, 2)} + {P(0, 1)} == {P(0, 4), P(0, 3), P(0, 2), P(0, 1)}; }
      Cascade(aw, P(0, 0), {P(0, 4), P(0, 3), P(0, 2), P(0, 1)},
              [given[3], given[2], given[1], given[0]]);
    }
  }

  /** A queue of ants walking east behind a free cell is emitted front
      first, that is in reverse submission order. */
  lemma ConvoyIsReleasedFrontFirst()
    ensures var given := Convoy();
      Resolve(given, [P(0, 0), P(0, 1), P(0, 2), P(0, 3)], P(1, 5)) ==
        [given[3], given[2], given[1], given[0]]
  {
    var given := Convoy();
    var ants := [P(0, 0), P(0, 1), P(0, 2), P(0, 3)];
    var size := P(1, 5);
    ConvoyWaits(ants, size);
    ConvoyCascade();
    assert given[..4][..3] == given[..3];
    assert given[..4] == given;
    var st := Run(given[..3], ants, size);
    assert Elements(ants) == {P(0, 0), P(0, 1), P(0, 2), P(0, 3)};
    assert TargetPos(given[3], size) == P(0, 4);
    assert given[3].pos in st.unmoved && P(0, 4) !in st.moved && P(0, 4) !in st.unmoved;
    assert st.moved + {P(0, 4)} == {P(0, 4)} && st.executed + [given[3]] == [given[3]];
  }

  /** Three ants in a row with a free cell ahead move together, front first. */
  lemma OrderedQueueMoves()
    ensures var given := [Order(P(0, 2), East), Order(P(0, 1), East), Order(P(0, 0), East)];
      Resolve(given, [P(0, 0), P(0, 1), P(0, 2)], P(1, 4)) == given
  {
    var given := [Order(P(0, 2), East), Order(P(0, 1), East), Order(P(0, 0), East)];
    var ants := [P(0, 0), P(0, 1), P(0, 2)];
    var size := P(1, 4);
    var u := Elements(ants);
    assert u == {P(0, 0), P(0, 1), P(0, 2)};
    assert given[..0] == [];
    assert Run(given[..1], ants, size) == Resolution(u - {P(0, 2)}, {P(0, 3)}, map[], [given[0]]) by {
      assert given[..1][..0] == [];
    }
    assert Run(given[..2], ants, size) ==
           Resolution(u - {P(0, 2), P(0, 1)}, {P(0, 3), P(0, 2)}, map[], [given[0], given[1]]) by {
      assert given[..2][..1] == given[..1];
    }
    assert given[..3][..2] == given[..2];
    assert given[..3] == given;
  }

  /** A second order into a cell an earlier order claimed is dropped, and so
      is the order waiting behind it. */
  lemma PileUpBehindClaimedCell()
    ensures var given := [Order(P(0, 3), West), Order(P(0, 1), East), Order(P(0, 0), East)];
      Resolve(given, [P(0, 0), P(0, 1), P(0, 3)], P(1, 4)) == [given[0]]
  {
    var given := [Order(P(0, 3), West), Order(P(0, 1), East), Order(P(0, 0), East)];
    var ants := [P(0, 0), P(0, 1), P(0, 3)];
    var size := P(1, 4);
    var u := Elements(ants);
    assert u == {P(0, 0), P(0, 1), P(0, 3)};
    assert given[..0] == [];
    assert Run(given[..1], ants, size) == Resolution(u - {P(0, 3)}, {P(0, 2)}, map[], [given[0]]) by {
      assert given[..1][..0] == [];
    }
    assert Run(given[..2], ants, size) == Resolution(u - {P(0, 3)}, {P(0, 2)}, map[], [given[0]]) by {
      assert given[..2][..1] == given[..1];
    }
    assert given[..3][..2] == given[..2];
    assert given[..3] == given;
  }

  /** Orders waiting on an ant that never moves are never emitted. */
  lemma BlockedByStationaryAnt()
    ensures Resolve([Order(P(0, 1), East), Order(P(0, 0), East)],
                    [P(0, 0), P(0, 1), P(0, 2)], P(1, 3)) == []
    ensures Resolve([Order(P(0, 0), South)],
                    [P(0, 0), P(0, 1), P(1, 0), P(1, 1)], P(2, 2)) == []
  {
    var given := [Order(P(0, 1), East), Order(P(0, 0), East)];
    var ants := [P(0, 0), P(0, 1), P(0, 2)];
    var size := P(1, 3);
    var u := Elements(ants);
    assert u == {P(0, 0), P(0, 1), P(0, 2)};
    assert Run(given[..1], ants, size) == Resolution(u, {}, map[P(0, 2) := given[0]], []) by {
      assert given[..1][..0] == [];
    }
    assert given[..2][..1] == given[..1];
    assert given[..2] == given;
    var one := [Order(P(0, 0), South)];
    assert one[..0] == [];
    assert Elements([P(0, 0), P(0, 1), P(1, 0), P(1, 1)]) ==
           {P(0, 0), P(0, 1), P(1, 0), P(1, 1)};
  }

  /** The first of two orders into the same free cell wins. */
  lemma FirstOrderWins()
    ensures Resolve([Order(P(0, 0), South), Order(P(1, 1), West)],
                    [P(0, 0), P(1, 1)], P(2, 3)) == [Order(P(0, 0), South)]
    ensures Resolve([Order(P(1, 1), West), Order(P(0, 0), South)],
                    [P(0, 0), P(1, 1)], P(2, 2)) == [Order(P(1, 1), West)]
  {
    var ants := [P(0, 0), P(1, 1)];
    var u := Elements(ants);
    assert u == {P(0, 0), P(1, 1)};
    var g1 := [Order(P(0, 0), South), Order(P(1, 1), West)];
    assert Run(g1[..1], ants, P(2, 3)) == Resolution(u - {P(0, 0)}, {P(1, 0)}, map[], [g1[0]]) by {
      assert g1[..1][..0] == [];
    }
    assert g1[..2][..1] == g1[..1];
    assert g1[..2] == g1;
    var g2 := [Order(P(1, 1), West), Order(P(0, 0), South)];
    assert Run(g2[..1], ants, P(2, 2)) == Resolution(u - {P(1, 1)}, {P(1, 0)}, map[], [g2[0]]) by {
      assert g2[..1][..0] == [];
    }
    assert g2[..2][..1] == g2[..1];
    assert g2[..2] == g2;
  }

  /** Four ants moving into four distinct empty cells all pass, in order. */
  lemma NoInterference()
    ensures var given := [Order(P(0, 0), East), Order(P(0, 3), West),
                          Order(P(1, 1), West), Order(P(1, 2), East)];
      Resolve(given, [P(0, 0), P(0, 3), P(1, 1), P(1, 2)], P(2, 4)) == given
  {
    var given := [Order(P(0, 0), East), Order(P(0, 3), West),
                  Order(P(1, 1), West), Order(P(1, 2), East)];
    var ants := [P(0, 0), P(0, 3), P(1, 1), P(1, 2)];
    var size := P(2, 4);
    assert TargetPos(given[0], size) == P(0, 1);
    assert TargetPos(given[1], size) == P(0, 2);
    assert TargetPos(given[2], size) == P(1, 0);
    assert TargetPos(given[3], size) == P(1, 3);
    IndependentMovesPass(given, ants, size);
  }

  /** After the top ant's order South, the bottom ant may not step West into
      the same cell; every other direction stays open. */
  lemma ClaimedCellClosesDirection(f: AntCrashFilter)
    requires f.Size() == P(2, 3)
    requires f.delegate.givenOrders == [Order(P(0, 0), South)]
    ensures f.AvailableDirections(P(1, 1)) == [North, South, East]
  {
    var size := P(2, 3);
    var p := P(1, 1);
    var given := [Order(P(0, 0), South)];
    assert TargetPos(given[0], size) == P(1, 0);
    assert forall o :: o in given ==> o == given[0];
    assert Targets(given, size) == {P(1, 0)};
    assert Neighbour(p, North, size) == P(0, 1);
    assert Neighbour(p, South, size) == P(0, 1);
    assert Neighbour(p, East, size) == P(1, 2);
    assert Neighbour(p, West, size) == P(1, 0);
    assert AllDirections[1..] == [South, East, West];
    assert [South, East, West][1..] == [East, West];
    assert [East, West][1..] == [West];
    assert [West][1..] == [];
    assert FreeDirections([West], p, size, given) == [];
    assert FreeDirections([East, West], p, size, given) == [East];
    assert FreeDirections([South, East, West], p, size, given) == [South, East];
  }

  /** On a 2x2 grid North and South of the top ant lead to the same cell
      below it, so both close once another order claims that cell. */
  lemma WrapAroundClosesBothWays(f: AntCrashFilter)
    requires f.Size() == P(2, 2)
    requires f.delegate.givenOrders == [Order(P(1, 1), West)]
    ensures f.AvailableDirections(P(0, 0)) == [East, West]
  {
    var size := P(2, 2);
    var p := P(0, 0);
    var given := [Order(P(1, 1), West)];
    assert TargetPos(given[0], size) == P(1, 0);
    assert forall o :: o in given ==> o == given[0];
    assert Targets(given, size) == {P(1, 0)};
    assert Neighbour(p, North, size) == P(1, 0);
    assert Neighbour(p, South, size) == P(1, 0);
    assert Neighbour(p, East, size) == P(0, 1);
    assert Neighbour(p, West, size) == P(0, 1);
    assert AllDirections[1..] == [South, East, West];
    assert [South, East, West][1..] == [East, West];
    assert [East, West][1..] == [West];
    assert [West][1..] == [];
    assert FreeDirections([West], p, size, given) == [West];
    assert FreeDirections([East, West], p, size, given) == [East, West];
    assert FreeDirections([South, East, West], p, size, given) == [East, West];
  }

  /** The release loop as written, which does not check whether a waiting
      order was already emitted: the cell it looks up after `n` rounds. */
  function CursorAfter(awaiting: map<Position, Order>, cursor: Position, n: nat): Position
    decreases n
  {
    if n == 0 || cursor !in awaiting then cursor
    else CursorAfter(awaiting, awaiting[cursor].pos, n - 1)
  }

  function SwapWaiting(): map<Position, Order>
  {
    map[P(0, 0) := Order(P(0, 1), West), P(0, 1) := Order(P(0, 0), East)]
  }

  /** Two ants waiting for each other's cells send the loop round forever. */
  lemma {:induction false} SwapNeverReleases(n: nat)
    ensures CursorAfter(SwapWaiting(), P(0, 0), n) in SwapWaiting()
    ensures CursorAfter(SwapWaiting(), P(0, 1), n) in SwapWaiting()
  {
    if n > 0 {
      SwapNeverReleases(n - 1);
    }
  }

  /**
   * With a second order from one ant the release loop never stops: the ant
   * at (0, 1) first waits to go West, the ant at (0, 0) waits to go East, and
   * when the first ant's second order (East, into a free cell) is emitted,
   * the loop keeps finding a waiting order for the cell it stands on.
   */
  lemma DuplicateSourceNeverStops()
    ensures var given := [Order(P(0, 1), West), Order(P(0, 0), East), Order(P(0, 1), East)];
      var st := Run(given[..2], [P(0, 0), P(0, 1)], P(1, 3));
      && st.awaiting == SwapWaiting()
      && given[2].pos in st.unmoved
      && TargetPos(given[2], P(1, 3)) !in st.unmoved && TargetPos(given[2], P(1, 3)) !in st.moved
      && forall n: nat :: CursorAfter(st.awaiting, given[2].pos, n) in st.awaiting
  {
    var given := [Order(P(0, 1), West), Order(P(0, 0), East), Order(P(0, 1), East)];
    var ants := [P(0, 0), P(0, 1)];
    var size := P(1, 3);
    var u := Elements(ants);
    assert u == {P(0, 0), P(0, 1)};
    assert Run(given[..1], ants, size) == Resolution(u, {}, map[P(0, 0) := given[0]], []) by {
      assert given[..1][..0] == [];
    }
    assert given[..2][..1] == given[..1];
    forall n: nat
      ensures CursorAfter(SwapWaiting(), P(0, 1), n) in SwapWaiting()
    {
      SwapNeverReleases(n);
    }
  }
}
