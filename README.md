# Curator index selection, modelled in Dafny

This project models the selection pipeline of Curator's `indices`
sub-command (`curator/cli/index_selection.py`). The pipeline picks the
Elasticsearch indices that a lifecycle action such as `delete` or `close`
will act on. It runs these steps in order:

1. It takes the master list of index names and stops with exit code 1
   when that list is empty.
2. It runs the stored filter records through `regex_iterate` one after
   another, each on the previous one's output. With `--all-indices`, only
   the records whose `exclude` flag is set are run.
3. When the parent command is `delete`, it calls `prune_kibana`.
4. It appends `in_list(index, indices)`, the manually named indices,
   computed against the original master list.
5. It turns the result into a sorted list without duplicates, or stops
   with exit code 99 when the list is empty.

Files:

- `string_order.dfy` (module `StringOrder`): the order Python's `sorted`
  uses on `str`. It compares character by character, and a proper prefix
  comes first. The module proves this order is a strict total order and
  that it is decided at the first position where the strings differ.
- `sorted_unique.dfy` (module `SortedUnique`): `sorted(list(set(xs)))` as
  `Dedupe`. The module proves `Dedupe` is strictly sorted, keeps exactly
  the elements of its input, and is the only list with both properties.
- `index_selection.dfy` (module `IndexSelection`): the pipeline itself.
  `Select` is a method with a `while` loop over the filter records.
  Its contract refers to the specification functions `Applied`, `Fold`,
  `Candidates` and `Trace`, and the lemmas below it state the ordering
  rules.

`regex_iterate`, `prune_kibana` and `in_list` are imported from the
package (`from . import *`), and their bodies are not part of this model.
They are passed to `Select` as function values of Dafny's total function
type. So the model takes them to be pure: each returns a list, raises
nothing, and leaves the list it is given unchanged. Beyond that, nothing
is assumed about what they compute, and every property here holds for
all such functions. `Select` also returns a ghost log, `calls`, that
records each call to one of them with its arguments. This makes the order
of the steps, and which steps run at all, part of the contract.

Python aliasing: line 50 makes `working_list` the very object `indices`.
So the first `regex_iterate` call, or `prune_kibana` when no filter runs,
receives the master list itself. When no filter runs and the command is
not `delete`, the `extend` on line 71 also changes `indices`. For that
last case the result is unaffected, because `in_list(index, indices)` is
evaluated before `extend` runs and `indices` is not read again. Under the
purity assumption above, the collaborators never change `indices` either.
So `in_list` sees the original master list, which is what `Candidates`
and `TraceOrder` state. The model treats lists as values.

## Model

| member | source | states |
|---|---|---|
| `IndexSelection.Select` | curator/cli/index_selection.py:41-82 | Exit code 1 exactly when the master list is empty, and then no collaborator is called. Otherwise the calls made are exactly `Trace`. Exit code 99 exactly when the list before dedupe is empty. A successful result is non-empty, strictly sorted and free of duplicates, holds exactly the elements of the list before dedupe, and holds every element of `in_list(index, indices)`, for `delete` too. |
| `IndexSelection.Applied` | curator/cli/index_selection.py:60-62 | The records that are run, in order. It is never longer than the stored sequence, and no record in it is one that `--all-indices` skips. `AppliedWithoutAllIndices`, `AppliedWithAllIndices` and `AppliedAppend` pin it down. |
| `IndexSelection.Fold` | curator/cli/index_selection.py:60-64 | Rebinding `working_list` to `regex_iterate(working_list, **f)` for each record in turn. It has no contract of its own. `FoldAppend` and `FoldCallsAt` pin it down: running `a + b` is running `b` on `a`'s output, and call k sees the output of the first k records. |
| `IndexSelection.Skipped` | curator/cli/index_selection.py:61-62 | The `continue` condition `all_indices and not f['exclude']`. It has no contract of its own. `AppliedWithAllIndices` and `AppliedWithoutAllIndices` say which records it removes, and `SkippedFilterIsInert` says a skipped record has no effect. |
| `IndexSelection.FoldCalls` | curator/cli/index_selection.py:60-64 | The `regex_iterate` calls the loop makes, each with its input list and record. It has no contract of its own. `FoldCallsAt` pins it down: one call per record that is run, in order, call k on the output of the first k. |
| `IndexSelection.Filtered` | curator/cli/index_selection.py:60-64 | `working_list` after the loop: `Fold` of the master list over `Applied`. It has no contract of its own. `SkippedFilterIsInert` shows skipped records do not affect it, and `TraceOrder` shows it is what `prune_kibana` receives. |
| `IndexSelection.Trace` | curator/cli/index_selection.py:60-71 | The whole sequence of collaborator calls on a non-empty master list, which `Select`'s log equals. It has no contract of its own. `TraceOrder`, `EveryFilterRunInOrder` and `SkippedFilterIsInert` pin it down: filter calls first, in order, then `prune_kibana` exactly under `delete`, then `in_list` on the master list. |
| `IndexSelection.FilterStep` | curator/cli/index_selection.py:60-64 | One turn of the loop. A skipped record leaves both the working list and the calls unchanged. A record that is run makes one `regex_iterate` call, on the current list, and the rest continues from its output. |
| `IndexSelection.Candidates` | curator/cli/index_selection.py:66-71 | The working list before dedupe. Its tail is exactly `in_list(index, indices)`, appended last. Under a command other than `delete`, what precedes the tail is the filtered list itself, with no pruning. |
| `IndexSelection.Finish` | curator/cli/index_selection.py:73-82 | Exit code 99 exactly when the working list is empty. Otherwise the result is non-empty, strictly sorted and free of duplicates, with exactly the working list's elements. |
| `StringOrder.Less` | curator/cli/index_selection.py:75 | Python's `<` on `str`, the comparison `sorted` uses. Its contract says no string sorts before a string equal to it. `LessCharacterised`, `LessAsymmetric`, `LessTransitive` and `LessTotal` pin it down as the first-difference, prefix-first strict total order. |
| `IndexSelection.AppliedWithoutAllIndices` | curator/cli/index_selection.py:60-64 | Without `--all-indices`, every filter record is run. |
| `IndexSelection.AppliedWithAllIndices` | curator/cli/index_selection.py:55-62 | With `--all-indices`, a record is run exactly when it is in the sequence and its `exclude` flag is set. |
| `IndexSelection.AppliedAppend` | curator/cli/index_selection.py:60-62 | Selecting the records to run commutes with concatenation, so the records that run keep their original relative order. |
| `IndexSelection.FoldAppend` | curator/cli/index_selection.py:60-64 | Running the records `a + b` gives the same list as running `a`, then running `b` on its output. |
| `IndexSelection.FoldCallsAt` | curator/cli/index_selection.py:60-64 | `regex_iterate` is called once per record, in order. Call k gets record k and the output of the first k records. |
| `IndexSelection.EveryFilterRunInOrder` | curator/cli/index_selection.py:60-64 | Without `--all-indices`, the first calls in the log are one `regex_iterate` call per record, in sequence order. The first is fed the master list and each later one the previous output. |
| `IndexSelection.SkippedFilterIsInert` | curator/cli/index_selection.py:61-62 | With `--all-indices`, a non-exclude record anywhere in the sequence changes neither the filtered list nor the calls made. |
| `IndexSelection.TraceOrder` | curator/cli/index_selection.py:60-71 | All `regex_iterate` calls come first. `prune_kibana` is called once, on the fully filtered list, right after them when the command is `delete`, and never otherwise. `in_list` is called last, with the `--index` names and the original master list. |
| `SortedUnique.Insert` | curator/cli/index_selection.py:75 | Inserting a name into a strictly sorted list gives a strictly sorted list holding the old elements plus that name. Its length grows by one exactly when the name was absent. |
| `SortedUnique.Dedupe` | curator/cli/index_selection.py:75 | `sorted(list(set(xs)))` is strictly sorted, holds exactly the elements of `xs`, and is no longer than `xs`. |
| `SortedUnique.StrictlySortedHasNoDuplicates` | curator/cli/index_selection.py:74-75 | A strictly sorted list holds no element twice. `Finish` uses it to promise that the result of `sorted(list(set(...)))` has no duplicates. |
| `SortedUnique.StrictlySortedUnique` | curator/cli/index_selection.py:75 | Two strictly sorted lists with the same elements are equal. |
| `SortedUnique.DedupeIsUniqueSortedForm` | curator/cli/index_selection.py:75 | Every strictly sorted list holding exactly the elements of `xs` equals `Dedupe(xs)`. So `Select`'s contract fixes the returned list completely. |
| `SortedUnique.DedupeOfSorted` | curator/cli/index_selection.py:75 | Dedupe leaves a list that is already sorted and unique unchanged (idempotence). |
| `StringOrder.CommonPrefix` | curator/cli/index_selection.py:75 | The result is the length of the longest common prefix of two strings. Both strings agree up to it and differ right after it, unless one of them ends there. |
| `StringOrder.LessCharacterised` | curator/cli/index_selection.py:75 | At the first position where two strings differ, the string order is decided: either the first string ends there while the second does not, or its character there is smaller. |
| `StringOrder.LessAsymmetric` | curator/cli/index_selection.py:75 | Two strings never sort before each other. |
| `StringOrder.LessTransitive` | curator/cli/index_selection.py:75 | The string order is transitive. |
| `StringOrder.LessTotal` | curator/cli/index_selection.py:75 | Of two distinct strings, one sorts before the other. |

## Left out

- Click option declarations and `filter_callback` (lines 10-32) are argument parsing through a library this model does not include. The stored filter records are an input sequence of `Filter` values. A record's entries other than `exclude` are kept as a map from keyword to `ArgValue`, which is an integer for `--newer-than`/`--older-than` and a string otherwise. Only `regex_iterate` reads them.
- `get_client` and `get_indices` (lines 46-48) are network calls to Elasticsearch. The master list is an input. When `get_indices` returns a falsy non-list value, the source takes the same exit 1 path. The model covers only the empty list.
- The bodies of `regex_iterate`, `prune_kibana` and `in_list` live elsewhere in the package and are not part of this model. No regex matching, date parsing or Kibana pattern is modelled.
- `regex_iterate`, `prune_kibana` and `in_list` are modelled as pure total functions: they return a list, raise nothing, and do not change the list they are given. The model does not capture a body that changes its argument in place. Because the first such call can receive the master list object itself (lines 50, 64, 68), such a body would change what `in_list` sees on line 71. An exception raised inside one of these functions is not modelled either.
- Logging, `click.echo` output and the `dry_run` check (lines 41-45, 56, 58, 63, 67, 76, 80-81) are I/O that does not affect the selected list.
- `sys.exit` is modelled as the `Exit(code)` outcome. Finishing normally is modelled as `Selected(list)`, because the action step on line 78 is unimplemented.
- String order compares `char` values, which are Unicode scalar values. Python strings can also hold lone surrogate code points, which Dafny's `char` cannot represent.
