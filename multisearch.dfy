/**
 * Multi-target search (`strategy/multisearch/mod.rs`): one single-target
 * search per target, pooled, then a greedy choice that keeps a result only
 * when neither its source nor its destination has been chosen before.
 *
 * The results are scanned by iterating a binary heap, whose order is not
 * its priority order; the scan order is therefore left open (each next
 * result is any one not yet scanned), and every property below holds for
 * every scan order. The targets come from a hash set, so they too are
 * visited in an open order.
 */
module MultiSearch {
  import opened Grid
  import opened SearchResults
  import opened Sequences

  /** A single-target search: sources, destination, quota, cutoff. */
  type SingleTargetSearch = (set<Position>, Position, nat, nat) -> seq<SearchResult>

  /** The first steps of the results. */
  function FirstSteps(rs: seq<SearchResult>): set<Position>
  {
    set c | c in rs :: FirstStep(c)
  }

  /** The last steps of the results. */
  function LastSteps(rs: seq<SearchResult>): set<Position>
  {
    set c | c in rs :: LastStep(c)
  }

  /** One more result adds its first and its last step. */
  lemma StepsAppend(rs: seq<SearchResult>, r: SearchResult)
    ensures FirstSteps(rs + [r]) == FirstSteps(rs) + {FirstStep(r)}
    ensures LastSteps(rs + [r]) == LastSteps(rs) + {LastStep(r)}
  {
    assert forall c :: c in rs + [r] <==> c in rs || c == r;
  }

  /** No two results share a first step, and no two share a last step. */
  predicate ConflictFree(rs: seq<SearchResult>)
  {
    forall i, j :: 0 <= i < j < |rs| ==>
      FirstStep(rs[i]) != FirstStep(rs[j]) && LastStep(rs[i]) != LastStep(rs[j])
  }

  /** `r` shares its first or its last step with one of `rs`. */
  predicate Conflicts(r: SearchResult, rs: seq<SearchResult>)
  {
    FirstStep(r) in FirstSteps(rs) || LastStep(r) in LastSteps(rs)
  }

  /**
   * `greedily_choose`. `scan` is the order in which the results were looked
   * at: a permutation of `all`. The chosen results keep that order, no two of
   * them share a source or a destination, and every result left out shares
   * one with a result chosen before it.
   */
  method GreedilyChoose(all: seq<SearchResult>) returns (chosen: seq<SearchResult>, ghost scan: seq<SearchResult>)
    ensures multiset(scan) == multiset(all)
    ensures multiset(chosen) <= multiset(all)
    ensures IsSubsequence(chosen, scan)
    ensures ConflictFree(chosen)
    ensures forall i :: 0 <= i < |scan| && scan[i] !in chosen ==>
      exists k :: 0 <= k <= i && Conflicts(scan[i], Chosen(scan[..k]))
    ensures forall r :: r in all ==> r in chosen || Conflicts(r, chosen)
  {
    var rest := multiset(all);
    var choosenFroms: set<Position> := {};
    var choosenTos: set<Position> := {};
    chosen := [];
    scan := [];
    while rest != multiset{}
      invariant multiset(scan) + rest == multiset(all)
      invariant chosen == Chosen(scan)
      invariant choosenFroms == FirstSteps(chosen) && choosenTos == LastSteps(chosen)
      decreases |rest|
    {
      var result :| result in rest;
      var to := LastStep(result);
      var from := FirstStep(result);
      var isFromOrToAlreadyChosen := to in choosenTos || from in choosenFroms;
      ChosenStep(scan, result);
      if !isFromOrToAlreadyChosen {
        StepsAppend(chosen, result);
        chosen := chosen + [result];
        choosenFroms := choosenFroms + {from};
        choosenTos := choosenTos + {to};
      }
      assert multiset(scan + [result]) + (rest - multiset{result}) == multiset(all) by {
        assert multiset(scan + [result]) == multiset(scan) + multiset{result};
      }
      scan := scan + [result];
      rest := rest - multiset{result};
    }
    ScanCoversAll(all, scan);
  }

  lemma ScanCoversAll(all: seq<SearchResult>, scan: seq<SearchResult>)
    requires multiset(scan) == multiset(all)
    ensures multiset(Chosen(scan)) <= multiset(all)
    ensures IsSubsequence(Chosen(scan), scan)
    ensures ConflictFree(Chosen(scan))
    ensures forall i :: 0 <= i < |scan| && scan[i] !in Chosen(scan) ==>
      exists k :: 0 <= k <= i && Conflicts(scan[i], Chosen(scan[..k]))
    ensures forall r :: r in all ==> r in Chosen(scan) || Conflicts(r, Chosen(scan))
  {
    ChosenProperties(scan);
    forall r | r in all
      ensures r in scan
    {
      assert r in multiset(all);
    }
  }

  /** The results a greedy scan of `scan` keeps, in scan order. */
  function Chosen(scan: seq<SearchResult>): seq<SearchResult>
  {
    if scan == [] then []
    else
      var before := Chosen(scan[..|scan| - 1]);
      var r := scan[|scan| - 1];
      if Conflicts(r, before) then before else before + [r]
  }

  lemma ChosenStep(scan: seq<SearchResult>, r: SearchResult)
    ensures Chosen(scan + [r]) == if Conflicts(r, Chosen(scan)) then Chosen(scan) else Chosen(scan) + [r]
  {
    assert (scan + [r])[..|scan|] == scan;
  }

  /** What the greedy scan promises, for any scan order. */
  lemma ChosenProperties(scan: seq<SearchResult>)
    ensures multiset(Chosen(scan)) <= multiset(scan)
    ensures IsSubsequence(Chosen(scan), scan)
    ensures ConflictFree(Chosen(scan))
    ensures forall i :: 0 <= i < |scan| && scan[i] !in Chosen(scan) ==>
      exists k :: 0 <= k <= i && Conflicts(scan[i], Chosen(scan[..k]))
    ensures forall r :: r in scan ==> r in Chosen(scan) || Conflicts(r, Chosen(scan))
  {
    ChosenIsSubsequence(scan);
    ChosenIsConflictFree(scan);
    LeftOutConflictsEarlier(scan);
    LeftOutConflicts(scan);
  }

  /** The greedy scan keeps some of the results, in their scan order. */
  lemma {:induction false} ChosenIsSubsequence(scan: seq<SearchResult>)
    ensures multiset(Chosen(scan)) <= multiset(scan)
    ensures IsSubsequence(Chosen(scan), scan)
  {
    if scan != [] {
      var init := scan[..|scan| - 1];
      var r := scan[|scan| - 1];
      assert scan == init + [r];
      ChosenIsSubsequence(init);
      SubsequenceAppend(Chosen(init), init, r);
    }
  }

  /** No two kept results share a first or a last step. */
  lemma {:induction false} ChosenIsConflictFree(scan: seq<SearchResult>)
    ensures ConflictFree(Chosen(scan))
  {
    if scan != [] {
      var init := scan[..|scan| - 1];
      var r := scan[|scan| - 1];
      var before := Chosen(init);
      ChosenIsConflictFree(init);
      if !Conflicts(r, before) {
        var c := before + [r];
        forall i, j | 0 <= i < j < |c|
          ensures FirstStep(c[i]) != FirstStep(c[j]) && LastStep(c[i]) != LastStep(c[j])
        {
          if j == |before| {
            assert c[i] in before;
          } else {
            assert c[i] == before[i] && c[j] == before[j];
          }
        }
      }
    }
  }

  /** A result left out conflicts with a result kept before it was scanned. */
  lemma {:induction false} LeftOutConflictsEarlier(scan: seq<SearchResult>)
    ensures forall i :: 0 <= i < |scan| && scan[i] !in Chosen(scan) ==>
      exists k :: 0 <= k <= i && Conflicts(scan[i], Chosen(scan[..k]))
  {
    if scan != [] {
      var init := scan[..|scan| - 1];
      var before := Chosen(init);
      LeftOutConflictsEarlier(init);
      forall i | 0 <= i < |scan| && scan[i] !in Chosen(scan)
        ensures exists k :: 0 <= k <= i && Conflicts(scan[i], Chosen(scan[..k]))
      {
        if i < |init| {
          assert scan[i] == init[i];
          assert before <= Chosen(scan) by {
            assert Chosen(scan) == before || Chosen(scan) == before + [scan[|scan| - 1]];
          }
          assert scan[i] !in before;
          var k :| 0 <= k <= i && Conflicts(init[i], Chosen(init[..k]));
          assert init[..k] == scan[..k];
        } else {
          assert scan[..i] == init;
        }
      }
    }
  }

  /** Every result is kept or conflicts with a kept one. */
  lemma {:induction false} LeftOutConflicts(scan: seq<SearchResult>)
    ensures forall r :: r in scan ==> r in Chosen(scan) || Conflicts(r, Chosen(scan))
  {
    if scan != [] {
      var init := scan[..|scan| - 1];
      var r := scan[|scan| - 1];
      var before := Chosen(init);
      assert scan == init + [r];
      LeftOutConflicts(init);
      forall x | x in scan
        ensures x in Chosen(scan) || Conflicts(x, Chosen(scan))
      {
        if x != r {
          assert x in init;
          if x !in before {
            ConflictsGrow(x, before, r);
          }
        }
      }
    }
  }

  /** Choosing one more result keeps every earlier conflict. */
  lemma ConflictsGrow(x: SearchResult, before: seq<SearchResult>, r: SearchResult)
    requires Conflicts(x, before)
    ensures Conflicts(x, before + [r])
  {
    if FirstStep(x) in FirstSteps(before) {
      var c :| c in before && FirstStep(c) == FirstStep(x);
      assert c in before + [r];
    } else {
      var c :| c in before && LastStep(c) == LastStep(x);
      assert c in before + [r];
    }
  }

  /** A conflict-free choice uses as many distinct sources as it has results,
      and as many distinct destinations. */
  lemma {:induction false} ConflictFreeCounts(rs: seq<SearchResult>)
    requires ConflictFree(rs)
    ensures |FirstSteps(rs)| == |rs| && |LastSteps(rs)| == |rs|
  {
    if rs != [] {
      var init := rs[..|rs| - 1];
      var r := rs[|rs| - 1];
      assert ConflictFree(init) by {
        forall i, j | 0 <= i < j < |init|
          ensures FirstStep(init[i]) != FirstStep(init[j]) && LastStep(init[i]) != LastStep(init[j])
        {
          assert init[i] == rs[i] && init[j] == rs[j];
        }
      }
      ConflictFreeCounts(init);
      forall c | c in init
        ensures FirstStep(c) != FirstStep(r) && LastStep(c) != LastStep(r)
      {
        var i :| 0 <= i < |init| && init[i] == c;
        assert rs[i] == c;
      }
      assert rs == init + [r];
      StepsAppend(init, r);
    }
  }

  // ---------------------------------------------------------------------
  // search_all

  /** The results of one search per target, in the order the targets are visited. */
  function Pooled(search: SingleTargetSearch, froms: set<Position>, targets: seq<Position>,
                  maxResultLen: nat, cutoff: nat): (r: seq<SearchResult>)
    ensures forall x :: x in r <==>
      exists i :: 0 <= i < |targets| && x in search(froms, targets[i], maxResultLen, cutoff)
  {
    if targets == [] then []
    else
      var rest := Pooled(search, froms, targets[1..], maxResultLen, cutoff);
      assert forall i :: 0 < i < |targets| ==> targets[i] == targets[1..][i - 1];
      search(froms, targets[0], maxResultLen, cutoff) + rest
  }

  lemma PooledAppend(search: SingleTargetSearch, froms: set<Position>, targets: seq<Position>, t: Position,
                     maxResultLen: nat, cutoff: nat)
    ensures Pooled(search, froms, targets + [t], maxResultLen, cutoff) ==
            Pooled(search, froms, targets, maxResultLen, cutoff) + search(froms, t, maxResultLen, cutoff)
  {
    if targets != [] {
      assert (targets + [t])[1..] == targets[1..] + [t];
      PooledAppend(search, froms, targets[1..], t, maxResultLen, cutoff);
    }
  }

  /** The single-target search starts every result at a source and ends it at
      the destination it was asked for. */
  ghost predicate Sound(search: SingleTargetSearch, froms: set<Position>, tos: set<Position>,
                        maxResultLen: nat, cutoff: nat)
  {
    forall t, r :: t in tos && r in search(froms, t, maxResultLen, cutoff) ==>
      FirstStep(r) in froms && LastStep(r) == t
  }

  /**
   * `search_all`: every target is searched once, with the same sources, quota
   * and cutoff; the pooled results go through the greedy choice. With a
   * sound search, each chosen result joins a source to a target, and no
   * source and no target is used twice: there are no more results than
   * sources and no more than targets.
   */
  method SearchAll(search: SingleTargetSearch, froms: set<Position>, tos: set<Position>,
                   maxResultLen: nat, cutoff: nat)
    returns (chosen: seq<SearchResult>, ghost targets: seq<Position>, ghost pooled: seq<SearchResult>)
    ensures Elements(targets) == tos && NoDuplicates(targets)
    ensures pooled == Pooled(search, froms, targets, maxResultLen, cutoff)
    ensures multiset(chosen) <= multiset(pooled)
    ensures ConflictFree(chosen)
    ensures forall r :: r in pooled ==> r in chosen || Conflicts(r, chosen)
    ensures Sound(search, froms, tos, maxResultLen, cutoff) ==>
      && (forall r :: r in chosen ==> FirstStep(r) in froms && LastStep(r) in tos)
      && |chosen| <= |froms| && |chosen| <= |tos|
  {
    var rest := tos;
    targets := [];
    var allResults: seq<SearchResult> := [];
    while rest != {}
      invariant Elements(targets) + rest == tos && Elements(targets) !! rest
      invariant NoDuplicates(targets)
      invariant allResults == Pooled(search, froms, targets, maxResultLen, cutoff)
      decreases rest
    {
      var to :| to in rest;
      PooledAppend(search, froms, targets, to, maxResultLen, cutoff);
      allResults := allResults + search(froms, to, maxResultLen, cutoff);
      targets := targets + [to];
      rest := rest - {to};
    }
    pooled := allResults;
    ghost var scan;
    chosen, scan := GreedilyChoose(allResults);
    if Sound(search, froms, tos, maxResultLen, cutoff) {
      SoundChoice(search, froms, tos, targets, pooled, chosen, maxResultLen, cutoff);
    }
  }

  /** A conflict-free choice among a sound search's results joins distinct
      sources to distinct targets. */
  lemma SoundChoice(search: SingleTargetSearch, froms: set<Position>, tos: set<Position>,
                    targets: seq<Position>, pooled: seq<SearchResult>, chosen: seq<SearchResult>,
                    maxResultLen: nat, cutoff: nat)
    requires Sound(search, froms, tos, maxResultLen, cutoff)
    requires Elements(targets) == tos && pooled == Pooled(search, froms, targets, maxResultLen, cutoff)
    requires multiset(chosen) <= multiset(pooled) && ConflictFree(chosen)
    ensures forall r :: r in chosen ==> FirstStep(r) in froms && LastStep(r) in tos
    ensures |chosen| <= |froms| && |chosen| <= |tos|
  {
    forall r | r in chosen
      ensures FirstStep(r) in froms && LastStep(r) in tos
    {
      assert r in multiset(pooled);
      assert r in pooled;
      var i :| 0 <= i < |targets| && r in search(froms, targets[i], maxResultLen, cutoff);
      assert targets[i] in tos;
    }
    ConflictFreeCounts(chosen);
    SubsetCardinality(FirstSteps(chosen), froms);
    SubsetCardinality(LastSteps(chosen), tos);
  }

  lemma {:induction false} SubsetCardinality<T>(a: set<T>, b: set<T>)
    requires a <= b
    ensures |a| <= |b|
    decreases a
  {
    if a != {} {
      var x :| x in a;
      SubsetCardinality(a - {x}, b - {x});
    }
  }
}
