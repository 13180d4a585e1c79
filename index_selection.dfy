/**
 * The selection pipeline of the `indices` command: start from the master
 * list of index names, run the stored filter records through
 * `regex_iterate`, protect Kibana indices when the parent command is
 * `delete`, add the manually named indices, and hand on the sorted list
 * of distinct names, or stop with an exit code.
 *
 * `regex_iterate`, `prune_kibana` and `in_list` are defined elsewhere in
 * the package; they are taken here as arbitrary pure total functions
 * (they return a list and do not change the one they are given), and
 * nothing below depends on what they compute.
 */
module IndexSelection {
  import opened SortedUnique

  /** A keyword argument's value: `--newer-than`/`--older-than` are integers, the rest strings. */
  datatype ArgValue = IntValue(n: int) | StrValue(s: string)

  /**
   * One stored filter record. Its entries are passed to `regex_iterate`
   * as keyword arguments; the pipeline itself reads only `exclude`.
   */
  datatype Filter = Filter(exclude: bool, args: map<string, ArgValue>)

  /** How the command ends: `sys.exit(code)`, or with the list to act on. */
  datatype Outcome = Exit(code: int) | Selected(selected: seq<string>)

  /** One call into a collaborator, with the arguments it was given. */
  datatype Call =
    | FilterRun(input: seq<string>, filter: Filter)    // regex_iterate(input, **filter)
    | PruneRun(input: seq<string>)                     // prune_kibana(input)
    | IncludeRun(names: seq<string>, master: seq<string>)  // in_list(names, master)

  type RegexIterate = (seq<string>, Filter) -> seq<string>
  type PruneKibana = seq<string> -> seq<string>
  type InList = (seq<string>, seq<string>) -> seq<string>

  /** The parent command under which Kibana indices are pruned. */
  const DeleteCommand: string := "delete"
  /** Exit code when no index names could be listed. */
  const NoIndicesExit: int := 1
  /** Exit code when no index name survives the selection. */
  const NoMatchExit: int := 99

  /** With `--all-indices`, a filter that is not an exclude is skipped. */
  predicate Skipped(f: Filter, allIndices: bool)
  {
    allIndices && !f.exclude
  }

  /** The filter records that are run, in the order they are run. */
  function Applied(filters: seq<Filter>, allIndices: bool): (r: seq<Filter>)
    ensures |r| <= |filters|
    ensures forall k :: 0 <= k < |r| ==> !Skipped(r[k], allIndices)
  {
    if filters == [] then []
    else (if Skipped(filters[0], allIndices) then [] else [filters[0]]) + Applied(filters[1..], allIndices)
  }

  /**
   * Runs `filters` one after another, each on the previous one's output:
   * the result is the last filter's output on what the others left.
   */
  function Fold(working: seq<string>, filters: seq<Filter>, regexIterate: RegexIterate): seq<string>
    decreases |filters|
  {
    if filters == [] then working
    else Fold(regexIterate(working, filters[0]), filters[1..], regexIterate)
  }

  /** The calls to `regex_iterate` that `Fold` makes. */
  function FoldCalls(working: seq<string>, filters: seq<Filter>, regexIterate: RegexIterate): seq<Call>
    decreases |filters|
  {
    if filters == [] then []
    else [FilterRun(working, filters[0])] + FoldCalls(regexIterate(working, filters[0]), filters[1..], regexIterate)
  }

  /** The working list once every filter that is run has been run. */
  function Filtered(master: seq<string>, filters: seq<Filter>, allIndices: bool, regexIterate: RegexIterate): seq<string>
  {
    Fold(master, Applied(filters, allIndices), regexIterate)
  }

  /** The working list just before it is sorted and made unique. */
  function Candidates(master: seq<string>, filters: seq<Filter>, allIndices: bool, command: string,
                      includes: seq<string>, regexIterate: RegexIterate, pruneKibana: PruneKibana,
                      inList: InList): (r: seq<string>)
    ensures var added := inList(includes, master);
      |r| >= |added| && r[|r| - |added|..] == added
    ensures command != DeleteCommand ==>
      r[..|r| - |inList(includes, master)|] == Filtered(master, filters, allIndices, regexIterate)
  {
    var filtered := Filtered(master, filters, allIndices, regexIterate);
    (if command == DeleteCommand then pruneKibana(filtered) else filtered) + inList(includes, master)
  }

  /** Every collaborator call made on a non-empty master list, in order. */
  function Trace(master: seq<string>, filters: seq<Filter>, allIndices: bool, command: string,
                 includes: seq<string>, regexIterate: RegexIterate): seq<Call>
  {
    FoldCalls(master, Applied(filters, allIndices), regexIterate)
    + (if command == DeleteCommand then [PruneRun(Filtered(master, filters, allIndices, regexIterate))] else [])
    + [IncludeRun(includes, master)]
  }

  /**
   * The end of `indices`: stop with exit code 99 on an empty working list,
   * otherwise hand on `sorted(list(set(working)))`.
   */
  function Finish(working: seq<string>): (r: Outcome)
    ensures r == Exit(NoMatchExit) <==> working == []
    ensures r.Exit? ==> r.code == NoMatchExit
    ensures r.Selected? ==> r.selected != [] && StrictlySorted(r.selected) && NoDuplicates(r.selected)
    ensures r.Selected? ==> forall x :: x in r.selected <==> x in working
    ensures r.Selected? ==> NoDuplicates(r.selected)
  {
    if working == [] then Exit(NoMatchExit)
    else
      var names := Dedupe(working);
      StrictlySortedHasNoDuplicates(names);
      Selected(names)
  }

  /**
   * The body of `indices`. `master` is what `get_indices` returned,
   * `command` the parent command's name and `includes` the `--index`
   * values. `calls` records every collaborator call, in order.
   */
  method Select(master: seq<string>, filters: seq<Filter>, allIndices: bool, command: string,
                includes: seq<string>, regexIterate: RegexIterate, pruneKibana: PruneKibana,
                inList: InList)
    returns (r: Outcome, ghost calls: seq<Call>)
    ensures r == Exit(NoIndicesExit) <==> master == []
    ensures master == [] ==> calls == []
    ensures master != [] ==> calls == Trace(master, filters, allIndices, command, includes, regexIterate)
    ensures r.Exit? ==> r.code == NoIndicesExit || r.code == NoMatchExit
    ensures r == Exit(NoMatchExit) <==>
              master != [] && Candidates(master, filters, allIndices, command, includes, regexIterate, pruneKibana, inList) == []
    ensures r.Selected? ==> r.selected != [] && StrictlySorted(r.selected) && NoDuplicates(r.selected)
    ensures r.Selected? ==> forall x ::
              x in r.selected <==> x in Candidates(master, filters, allIndices, command, includes, regexIterate, pruneKibana, inList)
    ensures r.Selected? ==> forall x :: x in inList(includes, master) ==> x in r.selected
  {
    if master == [] {
      return Exit(NoIndicesExit), [];
    }
    var working := master;
    calls := [];
    var i := 0;
    while i < |filters|
      invariant 0 <= i <= |filters|
      invariant Fold(working, Applied(filters[i..], allIndices), regexIterate)
             == Filtered(master, filters, allIndices, regexIterate)
      invariant calls + FoldCalls(working, Applied(filters[i..], allIndices), regexIterate)
             == FoldCalls(master, Applied(filters, allIndices), regexIterate)
    {
      var f := filters[i];
      assert filters[i..] == [f] + filters[i + 1..];
      FilterStep(working, f, filters[i + 1..], allIndices, regexIterate);
      if !Skipped(f, allIndices) {
        ghost var later := FoldCalls(regexIterate(working, f), Applied(filters[i + 1..], allIndices), regexIterate);
        assert (calls + [FilterRun(working, f)]) + later == calls + ([FilterRun(working, f)] + later);
        calls := calls + [FilterRun(working, f)];
        working := regexIterate(working, f);
      } else {
        assert [] + FoldCalls(working, Applied(filters[i + 1..], allIndices), regexIterate)
            == FoldCalls(working, Applied(filters[i + 1..], allIndices), regexIterate);
      }
      i := i + 1;
    }
    assert filters[i..] == [];
    assert calls + [] == calls;
    ghost var filtered := Filtered(master, filters, allIndices, regexIterate);
    assert working == filtered;
    assert calls == FoldCalls(master, Applied(filters, allIndices), regexIterate);
    if command == DeleteCommand {
      calls := calls + [PruneRun(working)];
      working := pruneKibana(working);
    }
    var added := inList(includes, master);
    calls := calls + [IncludeRun(includes, master)];
    working := working + added;
    assert calls == Trace(master, filters, allIndices, command, includes, regexIterate);
    assert working == Candidates(master, filters, allIndices, command, includes, regexIterate, pruneKibana, inList);
    r := Finish(working);
  }

  /** One turn of the filter loop: `f` is either skipped or run on `working`. */
  lemma FilterStep(working: seq<string>, f: Filter, rest: seq<Filter>, allIndices: bool, regexIterate: RegexIterate)
    ensures var next := if Skipped(f, allIndices) then working else regexIterate(working, f);
      && Fold(working, Applied([f] + rest, allIndices), regexIterate) == Fold(next, Applied(rest, allIndices), regexIterate)
      && FoldCalls(working, Applied([f] + rest, allIndices), regexIterate)
         == (if Skipped(f, allIndices) then [] else [FilterRun(working, f)]) + FoldCalls(next, Applied(rest, allIndices), regexIterate)
  {
    assert ([f] + rest)[1..] == rest;
    var tail := Applied(rest, allIndices);
    if !Skipped(f, allIndices) {
      assert Applied([f] + rest, allIndices) == [f] + tail;
      assert ([f] + tail)[1..] == tail;
    } else {
      assert Applied([f] + rest, allIndices) == tail;
    }
  }

  /** Without `--all-indices` every filter record is run. */
  lemma {:induction false} AppliedWithoutAllIndices(filters: seq<Filter>)
    ensures Applied(filters, false) == filters
  {
    if filters != [] {
      AppliedWithoutAllIndices(filters[1..]);
    }
  }

  /** With `--all-indices` exactly the exclude records are run. */
  lemma {:induction false} AppliedWithAllIndices(filters: seq<Filter>)
    ensures forall f :: f in Applied(filters, true) <==> f in filters && f.exclude
  {
    if filters != [] {
      AppliedWithAllIndices(filters[1..]);
      assert forall f :: f in filters <==> f == filters[0] || f in filters[1..];
    }
  }

  /** The records that are run keep their relative order. */
  lemma {:induction false} AppliedAppend(a: seq<Filter>, b: seq<Filter>, allIndices: bool)
    ensures Applied(a + b, allIndices) == Applied(a, allIndices) + Applied(b, allIndices)
  {
    if a != [] {
      assert (a + b)[1..] == a[1..] + b;
      AppliedAppend(a[1..], b, allIndices);
    } else {
      assert a + b == b;
    }
  }

  /** Running `a` then `b` is running `a + b`. */
  lemma {:induction false} FoldAppend(working: seq<string>, a: seq<Filter>, b: seq<Filter>,
                                      regexIterate: RegexIterate)
    ensures Fold(working, a + b, regexIterate) == Fold(Fold(working, a, regexIterate), b, regexIterate)
    decreases |a|
  {
    if a != [] {
      assert (a + b)[1..] == a[1..] + b;
      FoldAppend(regexIterate(working, a[0]), a[1..], b, regexIterate);
    } else {
      assert a + b == b;
    }
  }

  /**
   * Each filter is run exactly once, in sequence order, on the output of
   * the filters before it.
   */
  lemma {:induction false} FoldCallsAt(working: seq<string>, filters: seq<Filter>, regexIterate: RegexIterate)
    ensures |FoldCalls(working, filters, regexIterate)| == |filters|
    ensures forall k :: 0 <= k < |filters| ==>
              FoldCalls(working, filters, regexIterate)[k] == FilterRun(Fold(working, filters[..k], regexIterate), filters[k])
    decreases |filters|
  {
    if filters != [] {
      var next := regexIterate(working, filters[0]);
      FoldCallsAt(next, filters[1..], regexIterate);
      forall k | 0 < k < |filters|
        ensures Fold(working, filters[..k], regexIterate) == Fold(next, filters[1..][..k - 1], regexIterate)
      {
        assert filters[..k][0] == filters[0];
        assert filters[..k][1..] == filters[1..][..k - 1];
      }
      assert filters[..0] == [];
    }
  }

  /**
   * Without `--all-indices`, the first calls are exactly one
   * `regex_iterate` call per filter record, in order, the first fed the
   * master list and each later one the previous call's output.
   */
  lemma EveryFilterRunInOrder(master: seq<string>, filters: seq<Filter>, command: string,
                              includes: seq<string>, regexIterate: RegexIterate)
    ensures var t := Trace(master, filters, false, command, includes, regexIterate);
      |t| > |filters| &&
      forall k :: 0 <= k < |filters| ==> t[k] == FilterRun(Fold(master, filters[..k], regexIterate), filters[k])
  {
    AppliedWithoutAllIndices(filters);
    FoldCallsAt(master, filters, regexIterate);
  }

  /**
   * With `--all-indices`, a non-exclude record anywhere in the sequence
   * changes neither the calls made nor the filtered list.
   */
  lemma SkippedFilterIsInert(master: seq<string>, before: seq<Filter>, f: Filter, after: seq<Filter>,
                             command: string, includes: seq<string>, regexIterate: RegexIterate)
    requires !f.exclude
    ensures Filtered(master, before + [f] + after, true, regexIterate) == Filtered(master, before + after, true, regexIterate)
    ensures Trace(master, before + [f] + after, true, command, includes, regexIterate)
         == Trace(master, before + after, true, command, includes, regexIterate)
  {
    AppliedAppend(before + [f], after, true);
    AppliedAppend(before, [f], true);
    AppliedAppend(before, after, true);
    assert [f][1..] == [];
    assert Applied([f], true) == [];
    assert Applied(before, true) + [] == Applied(before, true);
  }

  /**
   * `prune_kibana` is called once under `delete` and never otherwise, after
   * every `regex_iterate` call and on the fully filtered list; `in_list`
   * is called last, on the original master list.
   */
  lemma TraceOrder(master: seq<string>, filters: seq<Filter>, allIndices: bool, command: string,
                   includes: seq<string>, regexIterate: RegexIterate)
    ensures var t := Trace(master, filters, allIndices, command, includes, regexIterate);
      var n := |Applied(filters, allIndices)|;
      && |t| == n + (if command == DeleteCommand then 2 else 1)
      && (forall k :: 0 <= k < n ==> t[k].FilterRun?)
      && (forall k :: 0 <= k < |t| && t[k].PruneRun? ==> k == n && command == DeleteCommand)
      && (command == DeleteCommand ==> t[n] == PruneRun(Filtered(master, filters, allIndices, regexIterate)))
      && t[|t| - 1] == IncludeRun(includes, master)
  {
    FoldCallsAt(master, Applied(filters, allIndices), regexIterate);
  }
}
