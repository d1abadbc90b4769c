# Cisco ASA ACL reconciliation, modelled in Dafny

This project models the core of the Cisco ASA `acls` resource module,
`Acls.gen_config` and `Acls._compare`. Given the desired ACLs ("want") and
the ACLs on the device ("have"), the module builds the ordered list of
`access-list` commands that turns have into want, for the states merged,
replaced, overridden and deleted. It does so in these steps:

1. Each ACL list is indexed by name (module `Indexer`).
2. Redundant `protocol` / `protocol_options` keys are dropped from have
   ACEs (`Normaliser`).
3. In the merged state, line numbers are carried over from have to want
   (`CarryOver`).
4. In the deleted state, have is narrowed to the named ACLs (`Narrowing`).
5. In the overridden and deleted states, have ACLs missing from want are
   removed.
6. A rename command is emitted where needed, and every want ACL is
   compared with its have counterpart (`Comparator`). The comparison
   renders both ACE lists to text, takes a line diff (`Diff`), and runs a
   removal pass and an addition pass over that diff. Each pass numbers its
   lines by its own counter (`Passes`).
7. The commands are put in order (`Sequencer`).

The class `AsaAcls.Acls` ties the steps together. It has the fields of the
Python object, and its methods append to `commands` as the source does.

Modelling choices:

- **Dictionaries.** Python dictionaries keep insertion order, and command
  order follows it. An ACL dictionary is therefore a sequence of
  `(name, ACL)` pairs with distinct names (`Dicts.AclDict`).
- **ACEs.** An ACE is a `map<string, Value>`. `Value` is a small
  JSON-like value type, and `Values.Truthy` is Python truthiness.
- **Exceptions.** The `KeyError` of `h_item["aces"]` and the `IndexError`
  of `format(*tokens[1:3], ...)` are modelled as `Result.Err`.
- **Collaborators.** Three parts of the source call code this model does
  not include. They are parameters of the class:
  - the template renderer, a function from ACE to one line of text;
  - `difflib.Differ`, a function from the two lists of lines to a diff.
    The diff has to satisfy `Diff.ValidDiff`: its unchanged and removed
    lines are the first list, its unchanged and added lines are the
    second, and equal lists give only unchanged lines. `Diff.PlainDiff`
    shows that such a diff exists for any two inputs;
  - `dict_merge`, a function on two ACL dictionaries.

### Behaviour worth noting

- Rename values are not deduplicated. The code compares the rename value
  with a list of want ACL *names* that were found on the device. Two want
  ACLs renamed to the same value therefore both get a rename command
  (`AsaAcls.RenameEmittedTwice`). A rename is suppressed when its value is
  the name of an earlier want ACL that is on the device and emitted no
  rename itself, even though that is a different ACL
  (`AsaAcls.RenameSuppressedByName`).
- The driver loop compares every want ACL, whether or not it emitted a
  rename.
- The carry-over pops a have ACE's `line`, and puts it back when the ACE
  does not match. The line stays removed only after a match, and only in
  the deep copy.
- The normaliser's scan for a want ACE stops only after it has deleted a
  key, not at the first have ACE with the same endpoints.
- Identical want and have lists can still produce commands, because the
  normaliser can trim a have ACE's options against a later want ACE
  (`AsaAcls.NormaliserChangesIdenticalLists`). The model proves the
  "no command" outcome under a stated side condition
  (`AsaAcls.ReplaceWithSameQuiet`).

## Model

| member | source | states |
|---|---|---|
| Indexer.IndexAcls | plugins/module_utils/network/asa/config/acls/acls.py:68-81 | the `temp.update` loop builds exactly the dictionary `Index(entries)` |
| Indexer.IndexLastWins | plugins/module_utils/network/asa/config/acls/acls.py:70-71 | the value under a name is the last ACL of that name in the list, and a name that never occurs is absent |
| Indexer.IndexFirstOccurrenceOrder | plugins/module_utils/network/asa/config/acls/acls.py:70-71 | every key is the name of its value, and keys appear in the order in which their names first occur |
| Dicts.Put | plugins/module_utils/network/asa/config/acls/acls.py:71 | `update` adds or replaces one key: an old key keeps its place, a new key goes last, every other key keeps its value |
| Dicts.Pop | plugins/module_utils/network/asa/config/acls/acls.py:153 | `pop(k, {})` removes only `k`, and a missing key leaves the dictionary unchanged |
| Normaliser.TrimDeletesOneKey | plugins/module_utils/network/asa/config/acls/acls.py:89-105 | a deletion needs equal source and destination, and removes exactly one key that was present: `protocol_options` only when the protocols are equal and the want options are falsy, `protocol` only when the protocols differ, the options are equal and the want protocol is falsy |
| Normaliser.TrimIsTrimmed | plugins/module_utils/network/asa/config/acls/acls.py:94-105 | a deletion only drops `protocol` or `protocol_options`, and all other keys and values stay |
| Normaliser.TrimmedKeepsEndpoints | plugins/module_utils/network/asa/config/acls/acls.py:89-93 | a trimmed ACE keeps its source and destination |
| Normaliser.FirstTrimmable | plugins/module_utils/network/asa/config/acls/acls.py:88-105 | the scan stops at the first have ACE that gives up a key, and every earlier ACE gives up none |
| Normaliser.TrimFirstChangesAtMostOne | plugins/module_utils/network/asa/config/acls/acls.py:88-105 | one want ACE's scan changes at most one have ACE: the first trimmable one |
| Normaliser.NormaliseAcesOnlyTrims | plugins/module_utils/network/asa/config/acls/acls.py:86-105 | after all scans every have ACE is its original minus protocol keys, and a changed one has the endpoints of some want ACE |
| Normaliser.NormaliseAcesBound | plugins/module_utils/network/asa/config/acls/acls.py:86-105 | at most one have ACE changes per want ACE |
| Normaliser.ScanHaveAces | plugins/module_utils/network/asa/config/acls/acls.py:88-105 | the inner loop, which breaks only after a deletion, gives `TrimFirst` |
| Normaliser.NormaliseAclAces | plugins/module_utils/network/asa/config/acls/acls.py:86-105 | the loop over one ACL's want ACEs gives `NormaliseAces` |
| Normaliser.Normalised | plugins/module_utils/network/asa/config/acls/acls.py:83-87 | the normaliser keeps every have key, in order |
| Normaliser.NormaliseProtocols | plugins/module_utils/network/asa/config/acls/acls.py:83-105 | the whole normaliser loop over `wantd` gives `Normalised(wantd, haved)` |
| CarryOver.FirstEligible | plugins/module_utils/network/asa/config/acls/acls.py:121-127 | the scan stops at the first copied have ACE that has a truthy line and equals the want ACE once that line is popped |
| CarryOver.CarryFacts | plugins/module_utils/network/asa/config/acls/acls.py:117-127 | want ACEs that have a line are untouched; a line goes to the first matching have ACE that no earlier want ACE took; each have line is handed out at most once; the copy loses exactly the lines handed out |
| CarryOver.CarryOnlySetsLines | plugins/module_utils/network/asa/config/acls/acls.py:124-125 | the carry-over changes a want ACE only by adding a line it lacked |
| CarryOver.CarriedOverEntries | plugins/module_utils/network/asa/config/acls/acls.py:112-127 | the carry-over fails exactly when some entry fails; otherwise each want entry is mapped through `CarryEntry` against the unmodified `haved` |
| CarryOver.CarriedOverSkipsNew | plugins/module_utils/network/asa/config/acls/acls.py:113-115 | a want ACL missing from have comes out unchanged |
| CarryOver.CarriedOver | plugins/module_utils/network/asa/config/acls/acls.py:112-127 | on success the keys of `wantd` are kept, in order |
| CarryOver.TakeLine | plugins/module_utils/network/asa/config/acls/acls.py:121-127 | popping and restoring lines in the inner loop gives `CarryStep` |
| CarryOver.CarryAclLines | plugins/module_utils/network/asa/config/acls/acls.py:116-127 | the loop over one ACL's want ACEs gives `CarryAces`, with the `KeyError` when the have ACL has no ACE list |
| CarryOver.CarryOneEntry | plugins/module_utils/network/asa/config/acls/acls.py:113-127 | one entry of the loop gives `CarryEntry` |
| CarryOver.CarryOverLines | plugins/module_utils/network/asa/config/acls/acls.py:111-127 | the loop over `wantd` that pops from the deep copy gives `CarriedOver(wantd, haved)` |
| Narrowing.KeptLookup | plugins/module_utils/network/asa/config/acls/acls.py:131-136 | after narrowing, `haved` holds exactly the original entries whose name is in `wantd`, or all of them when `wantd` is empty |
| Narrowing.KeptAll | plugins/module_utils/network/asa/config/acls/acls.py:134 | an empty `wantd` keeps every have entry, in order |
| Narrowing.KeptInOrder | plugins/module_utils/network/asa/config/acls/acls.py:131-143 | the narrowed `haved` is the subsequence of the original whose keys are in `wantd` (all of it when `wantd` is empty), in the original order, which is the order the superfluous removals follow |
| Narrowing.NarrowForDelete | plugins/module_utils/network/asa/config/acls/acls.py:131-137 | the deleted-state loop gives `Kept(haved, wantd)` and an empty `wantd` |
| Diff.LineTokens | plugins/module_utils/network/asa/config/acls/acls.py:201-208 | `tokens[0]` of a Differ line is `-`, `+` or empty exactly for removed, added and unchanged lines; the later tokens are those of the text; the prefix never adds `line` |
| Diff.PlainDiffValid | plugins/module_utils/network/asa/config/acls/acls.py:196-197 | a diff meeting the required properties exists for any two line lists |
| Passes.RemovalCommand | plugins/module_utils/network/asa/config/acls/acls.py:203-206 | the removal command fails (IndexError) exactly when the text has no `line` and fewer than two tokens |
| Passes.AdditionCommand | plugins/module_utils/network/asa/config/acls/acls.py:215-218 | the addition command fails exactly when the text has no `line` and fewer than two tokens |
| Passes.CommandTokens | plugins/module_utils/network/asa/config/acls/acls.py:203-206 | text containing `line` is emitted verbatim (after `no `); otherwise the command is the first two tokens, `line`, the number, then the rest, and the number token reads back as the number |
| Passes.RemovalsShape | plugins/module_utils/network/asa/config/acls/acls.py:199-209 | the removal pass emits one command per removed line, each starting with `no ` |
| Passes.AdditionsShape | plugins/module_utils/network/asa/config/acls/acls.py:211-221 | the addition pass emits one command per added line |
| Passes.RemovalsErr | plugins/module_utils/network/asa/config/acls/acls.py:199-209 | the removal pass fails exactly when some removed line cannot be numbered |
| Passes.AdditionsErr | plugins/module_utils/network/asa/config/acls/acls.py:211-221 | the addition pass fails exactly when some added line cannot be numbered |
| Passes.RemovalNumberIsHavePosition | plugins/module_utils/network/asa/config/acls/acls.py:199-209 | the number given to a removed line is its 1-based position in `have_cmds`, and its command sits at its place among the removals |
| Passes.AdditionNumberIsWantPosition | plugins/module_utils/network/asa/config/acls/acls.py:211-221 | the number given to an added line is its 1-based position in `want_cmds`, and its command sits at its place among the additions |
| Passes.AdditionsFromNothing | plugins/module_utils/network/asa/config/acls/acls.py:211-221 | against an empty have list the additions are the want lines numbered 1 to n |
| Passes.RemovalsToNothing | plugins/module_utils/network/asa/config/acls/acls.py:199-209 | against an empty want list the removals are the have lines numbered 1 to n |
| Passes.AddAllNumbers | plugins/module_utils/network/asa/config/acls/acls.py:211-221 | in `AddAll`, the k-th command is the addition for the k-th line with number k + 1 |
| Passes.RemoveAllNumbers | plugins/module_utils/network/asa/config/acls/acls.py:199-209 | in `RemoveAll`, the k-th command is the removal for the k-th line with number k + 1 |
| Passes.PassesOnUnchanged | plugins/module_utils/network/asa/config/acls/acls.py:199-221 | a diff of only unchanged lines gives no command in either pass |
| Passes.RemovalStep | plugins/module_utils/network/asa/config/acls/acls.py:200-209 | one turn of the removal loop: the command for a `-` line; the counter grows on `-` and unchanged lines |
| Passes.AdditionStep | plugins/module_utils/network/asa/config/acls/acls.py:212-221 | one turn of the addition loop: the command for a `+` line; the counter grows on `+` and unchanged lines |
| Passes.RemovalPass | plugins/module_utils/network/asa/config/acls/acls.py:199-209 | the removal loop gives `Removals(diff)` |
| Passes.AdditionPass | plugins/module_utils/network/asa/config/acls/acls.py:211-221 | the addition loop gives `Additions(diff)` |
| Comparator.Prepare | plugins/module_utils/network/asa/config/acls/acls.py:172-180 | the ACE handed to the renderer carries the ACL's name and type, loses a truthy line in the replaced, overridden and deleted states, and keeps every other key |
| Comparator.Rendered | plugins/module_utils/network/asa/config/acls/acls.py:170-194 | one rendered line per ACE, and none for an ACL without ACEs |
| Comparator.RenderAces | plugins/module_utils/network/asa/config/acls/acls.py:170-181 | the render loop gives `Rendered` |
| Comparator.CompareUnchanged | plugins/module_utils/network/asa/config/acls/acls.py:196-221 | equal rendered text on both sides gives no command |
| Comparator.CompareAgainstNothing | plugins/module_utils/network/asa/config/acls/acls.py:183-221 | an ACL missing on the device is added line by line, numbered from 1 |
| Comparator.CompareToNothing | plugins/module_utils/network/asa/config/acls/acls.py:183-209 | an ACL compared with `{}` is removed line by line, numbered from 1 |
| Comparator.CompareOrder | plugins/module_utils/network/asa/config/acls/acls.py:196-221 | removals come before additions; the comparison fails exactly when some removed or added line cannot be numbered; otherwise it emits one command per removed or added line |
| Sequencer.SequencePermutes | plugins/module_utils/network/asa/config/acls/acls.py:154-159 | the sequencer keeps the same multiset of commands and the same length |
| Sequencer.SequenceNegationsFirst | plugins/module_utils/network/asa/config/acls/acls.py:155-157 | in the replaced, overridden and deleted states every `no ` command precedes every other command |
| Sequencer.SequenceOfNegations | plugins/module_utils/network/asa/config/acls/acls.py:155 | a list of only `no ` commands comes out reversed |
| Sequencer.SequenceWithoutNegations | plugins/module_utils/network/asa/config/acls/acls.py:156-157 | a list without `no ` commands comes out unchanged |
| AsaAcls.PopNext | plugins/module_utils/network/asa/config/acls/acls.py:151-153 | popping the current key keeps the have ACL of every later want key, and `k in haved` sees the original dictionary |
| AsaAcls.PoppedAll | plugins/module_utils/network/asa/config/acls/acls.py:146-153 | after the loop `haved` holds exactly the original entries whose key is not in `wantd` |
| AsaAcls.DriveEntryBare | plugins/module_utils/network/asa/config/acls/acls.py:147-153 | a want ACL without ACEs, against a have ACL without ACEs, emits only its rename, if any |
| AsaAcls.RenameEmittedTwice | plugins/module_utils/network/asa/config/acls/acls.py:145-153 | any two want ACLs without ACEs, under different names and with the same non-empty rename value, neither on the device, give two rename commands |
| AsaAcls.RenameSuppressedByName | plugins/module_utils/network/asa/config/acls/acls.py:145-152 | for any want dictionary, a rename whose value is the key of an earlier want ACL that is on the device and emitted no rename itself is not emitted |
| AsaAcls.NormaliserChangesIdenticalLists | plugins/module_utils/network/asa/config/acls/acls.py:86-99 | identical want and have ACE lists can still be changed by the normaliser |
| AsaAcls.MergedTakesLine | plugins/module_utils/network/asa/config/acls/acls.py:117-126 | a single want ACE without a line, against any have ACE list, takes exactly the line of the first have ACE that equals it once its line is popped |
| AsaAcls.OptionsDropped | plugins/module_utils/network/asa/config/acls/acls.py:89-99 | a single want ACE with falsy options, against any have ACE list: the first have ACE it can trim, when it has the want ACE's endpoints and protocol and truthy options, loses its options and every other have ACE is unchanged, as the `break` gives |
| AsaAcls.DrivenQuiet | plugins/module_utils/network/asa/config/acls/acls.py:145-153 | with no renames and every comparison empty, the driver loop emits nothing |
| AsaAcls.SuperfluousNone | plugins/module_utils/network/asa/config/acls/acls.py:140-143 | when every have ACL is also wanted, nothing is removed up front |
| AsaAcls.ReplaceWithSameQuiet | plugins/module_utils/network/asa/config/acls/acls.py:62-159 | replaced or overridden with the same ACLs wanted as present, no renames, a normaliser that trims nothing and a Differ that reports equal lists as unchanged gives no command |
| AsaAcls.SuperfluousAgainstNothing | plugins/module_utils/network/asa/config/acls/acls.py:140-143 | against an empty want dictionary every have ACL is removed, in order, each numbered from 1 |
| AsaAcls.DeleteEverything | plugins/module_utils/network/asa/config/acls/acls.py:130-153 | deleted without any want ACL removes every ACL on the device |
| AsaAcls.Acls.Compare | plugins/module_utils/network/asa/config/acls/acls.py:161-221 | `_compare` fails exactly when `CompareCommands` does, and otherwise appends exactly its commands |
| AsaAcls.Acls.RemoveSuperfluous | plugins/module_utils/network/asa/config/acls/acls.py:140-143 | the up-front loop appends exactly `Superfluous(wantd, haved)`, or stops at its first failure |
| AsaAcls.Acls.DriveOne | plugins/module_utils/network/asa/config/acls/acls.py:147-153 | one turn of the driver loop: rename test, `temp` bookkeeping, `pop`, `_compare` |
| AsaAcls.Acls.CompareAll | plugins/module_utils/network/asa/config/acls/acls.py:145-153 | the driver loop appends exactly `Driven(wantd, haved)`, and leaves `haved` with only the keys not in `wantd` |
| AsaAcls.Acls.AdjustDicts | plugins/module_utils/network/asa/config/acls/acls.py:68-137 | indexing, the normaliser and the state's adjustment give `Adjusted(...)` |
| AsaAcls.Acls.GenConfig | plugins/module_utils/network/asa/config/acls/acls.py:62-159 | `gen_config` fails exactly when `Planned` does; otherwise `commands` becomes the sequenced old commands followed by the planned ones, and in the merged state they are not reordered |
| AsaAcls.Acls.constructor | plugins/module_utils/network/asa/config/acls/acls.py:44-51 | the object holds its state, inputs and collaborators, and starts with no commands |

## Left out

- `execute_module` and `run_commands` send commands to the device. That is I/O.
- `Facts` gathering and the `ResourceModule` base class are framework code that is not part of this model. `want` and `have` are inputs, taken as already parsed.
- The template renderer is a parameter. Its text and the parser templates are not modelled.
- The Differ is a parameter, constrained only by `Diff.ValidDiff`. SequenceMatcher's choice among valid diffs and the text of `?` hint lines are not modelled.
- `dict_merge` is a parameter. Nothing is assumed about it, so the model proves nothing about the merged state after the merge.
- Aliasing is not modelled. The source mutates ACE dictionaries in place: the normaliser's `del`, and `_compare`'s deleted line and added name and type. These mutations can reach `haved`, or both sides after `dict_merge`. The model works on values and passes each mutated ACE along explicitly.
- Commands appended before an exception are not modelled. On an exception, `GenConfig` only promises that it fails, because the Python caller discards the object anyway.
- A `want` that is non-empty but has no `acls` key (a `KeyError` in the source) is not modelled. An empty `want` is the empty list.
- The distinction between `KeyError` and `TypeError` is not modelled. "ACE list absent" and "ACE list `None`" on the have side are both `CarryOver.CarryAces` failing with `KeyError`.
- AsaAcls.ReplaceWithSameQuiet: states the "no command for identical want and have" promise only when the normaliser changes nothing and no ACL is renamed. The promise is false without these conditions (`AsaAcls.NormaliserChangesIdenticalLists`). Nothing is claimed for the merged state, because `dict_merge` is a parameter.
- The idempotence of a second run is not claimed. It depends on the renderer, the Differ and `dict_merge`, which are parameters here.
- `six.iteritems` is plain iteration in insertion order.
- Values are compared structurally. Python's `==` in the normaliser and the carry-over treats `1`, `True` and `1.0` as equal; the model's `Values.Value` does not.
