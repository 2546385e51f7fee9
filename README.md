# HierarchicalRecord addressing engine, in Dafny

`HierarchicalRecord` stores a record as a tree. The top level is a dict from field name to a list of
*instances*. Each instance is a leaf value (possibly `None`) or a nested dict of the same shape.
Locations are written in *dotted key syntax*: `a0.b2.c` names field `c` of instance 2 of field `b`
of instance 0 of field `a`. A segment's maximal trailing digit run is its index and the rest is the
field name. Value operations need every segment indexed. Field operations need every segment but the
last indexed, and the last one bare.

This project models the engine that parses those keys, checks their index discipline and walks them
to read, test, create, replace, append and delete. It also models `keys`, `leaves` and `values`, which
list the record's contents. Properties of each operation are proved.

Modules, in dependency order:

- `Results` (results.dfy): `Option`, the Python exceptions raised (`Error`) and `Result`.
  `ValueError` is split by cause into `MalformedAddress`, `NotAList` and `FieldNotFound`.
- `Address` (address.dfy): splitting and joining on `.`, segment parsing, and the two discipline
  checks. Parsed addresses are sequences of `Step(name, index)`.
- `Tree` (tree.dfy): instances (`Null | Leaf | List | Node`) and dicts as association lists in
  insertion order. `WellFormed` says every dict has each key once. It also holds Python's `in`,
  `d[k]` and `xs[i]`, including the exceptions they raise.
- `Traversal` (traversal.dfy): the recursive `_*_from_key_list` readers and `_check_if_*` as
  functions. The five writers are one descent (`EditAt`) ending in one of five edits.
- `Updates` (updates.dfy): what each writer does to the tree: read-back, frame, index shift.
- `Vivification` (vivify.dfy): `_init_field_from_key_list`. The function `Vivify` specifies it. The
  method `InitField` is the recursion with its `while` padding loop, proved equal to `Vivify`.
- `Record` (record.dfy): the public operations as functions of the record's data. They take a key
  (dotted string or list of segments) and return the new data with the exception raised, if any.
- `RecordLaws` (record_laws.dfy): round trips, atomicity, append/create, removal, writing through a
  `None`, the paths each writer leaves alone, well-formedness.
- `AsWritten` (as_written.dfy): the writers and existence tests as written, where a `None` met
  part-way down restarts the walk at the top-level dict. Where the corrected descent succeeds, the
  as-written versions agree with it. On a sample record they edit the wrong place.
- `HierarchicalRecords` (hierarchical_record.dfy): the class, with a `data` field and the public
  methods that change it step by step. Each is proved to produce exactly the `Record` function's
  outcome and to keep every dict's keys unique.
- `Enumeration` (enumeration.dfy): `keys`, `leaves` and the `values` loop as nested-loop methods,
  proved equal to functions of the list of entries (path, instance) in visiting order.
- `EnumerationLaws` (enumeration_laws.dfy): the listing holds exactly the record's instances, each once, a dict's
  key comes right before its descendants' keys, and `values()[i]` is the value at `keys()[i]`.

Where the source mutates shared sub-dicts and lists in place, the model rebuilds the tree as a value.
The class's `data` field holds the result.

## Model

All source paths are in `hierarchicalrecord/hierarchicalrecord.py`.

| member | source | states |
|---|---|---|
| Address.Split | hierarchicalrecord/hierarchicalrecord.py:105-113 | `split(".")` gives at least one piece, and no piece contains `.` |
| Address.Join | hierarchicalrecord/hierarchicalrecord.py:128 | `".".join(parts)`: the parts with a `.` between neighbours (its laws: `JoinSplit`, `SplitJoin`, `ListToDotted`) |
| Address.JoinSplit | hierarchicalrecord/hierarchicalrecord.py:105-113 | joining the pieces of a split with `.` gives back the dotted string |
| Address.SplitJoin | hierarchicalrecord/hierarchicalrecord.py:115-128 | splitting the join of a non-empty list of dot-free segments gives back the list |
| Address.ListToDotted | hierarchicalrecord/hierarchicalrecord.py:115-128 | `_list_to_dotted` succeeds iff no segment contains `.`, else raises ValueError; a success splits back into the list |
| Address.DigitsValue | hierarchicalrecord/hierarchicalrecord.py:179 | `int(ds)` on a run of ASCII digits, leading zeros allowed (its laws: `NatToDigits`, `ParseSegment`) |
| Address.NatToDigits | hierarchicalrecord/hierarchicalrecord.py:179 | `str(i)` is a non-empty digit string with no leading zero whose value is `i` |
| Address.DigitRun | hierarchicalrecord/hierarchicalrecord.py:174 | the regex `\d+$` match is the maximal trailing run of digits |
| Address.ParseSegment | hierarchicalrecord/hierarchicalrecord.py:163-183 | the field name is the segment minus its trailing digit run and does not end in a digit; the index is `None` iff the segment ends in no digit, else the value of that run |
| Address.FormatSegment | hierarchicalrecord/hierarchicalrecord.py:658 | `x + str(i)`: a segment written for field `x`, instance `i` (its laws: `ParseFormat`, `DigitEndingNameMisparses`) |
| Address.ParseFormat | hierarchicalrecord/hierarchicalrecord.py:163-183 | for a name not ending in a digit, `name + str(i)` parses back to `(name, i)` |
| Address.DigitEndingNameMisparses | hierarchicalrecord/hierarchicalrecord.py:174-182 | instance 0 of field `v2` is written `v20`, which parses as instance 20 of field `v` |
| Address.ReqsIndices | hierarchicalrecord/hierarchicalrecord.py:148-161 | `_reqs_indices` passes iff every segment ends in a digit; otherwise it raises what the first offending segment raises (ValueError, or IndexError for an empty segment) |
| Address.NoLeafIndex | hierarchicalrecord/hierarchicalrecord.py:130-146 | `_no_leaf_index` passes iff the inner segments are indexed and the last is non-empty and unindexed; it raises IndexError on an empty list, then the first inner segment's violation, then IndexError for an empty last segment or ValueError for an indexed one |
| Address.ValuePath | hierarchicalrecord/hierarchicalrecord.py:185-208 | each step of a value address is the parse of its segment |
| Address.FieldPath | hierarchicalrecord/hierarchicalrecord.py:210-235 | a field address is its parsed inner steps plus the bare last segment |
| Address.FormatPath | hierarchicalrecord/hierarchicalrecord.py:656-661 | the dotted key `keys()` writes for a path (its laws: `FormatPathSnoc`, `ParseFormatPath`, `EnumerationLaws.FormatPathEndsInDigit`) |
| Address.FormatPathSnoc | hierarchicalrecord/hierarchicalrecord.py:656-661 | the key of a path one step longer is `".".join([init_path, x + str(i)])`, or `x + str(i)` at the top |
| Address.ParseFormatPath | hierarchicalrecord/hierarchicalrecord.py:656-661 | a key written for a path of well-named fields passes `_reqs_indices` and parses back to that path |
| Tree.Lookup | hierarchicalrecord/hierarchicalrecord.py:418 | `d.get(name)` is absent iff no entry has that name, and otherwise is the list of an entry of that name |
| Tree.Assign | hierarchicalrecord/hierarchicalrecord.py:338 | `d[name] = xs`: replace the list of an existing key in place, or add the key at the end (its laws: `LookupAssign`, `NamesAssign`, `AssignWellFormed`) |
| Tree.Delete | hierarchicalrecord/hierarchicalrecord.py:282 | `del d[name]`: remove the key's entry (its laws: `LookupDelete`, `DeleteSubset`, `DeleteWellFormed`) |
| Tree.LookupAssign | hierarchicalrecord/hierarchicalrecord.py:338 | after `d[name] = xs`, `d[name]` is `xs` and every other key reads as before |
| Tree.LookupDelete | hierarchicalrecord/hierarchicalrecord.py:282 | after `del d[name]` the key is gone from a dict and every other key reads as before |
| Tree.NamesAssign | hierarchicalrecord/hierarchicalrecord.py:338 | assigning an existing key keeps the key order; a new key is appended at the end |
| Tree.AssignWellFormed | hierarchicalrecord/hierarchicalrecord.py:338 | assigning a key keeps every dict's keys unique |
| Tree.DeleteWellFormed | hierarchicalrecord/hierarchicalrecord.py:282 | deleting a key keeps every dict's keys unique |
| Tree.DeleteSubset | hierarchicalrecord/hierarchicalrecord.py:282 | deleting a key adds no entry |
| Tree.Contains | hierarchicalrecord/hierarchicalrecord.py:418 | `name in x`: key membership for a dict; raises TypeError exactly for values that are not a dict, string or list |
| Tree.Subscript | hierarchicalrecord/hierarchicalrecord.py:205 | `x[name]` succeeds iff `x` is a dict holding the key; KeyError on a dict without it, TypeError on anything else |
| Tree.At | hierarchicalrecord/hierarchicalrecord.py:205 | `xs[i]` succeeds iff `i` is in range, else IndexError |
| Tree.Nulls | hierarchicalrecord/hierarchicalrecord.py:364-365 | `n` copies of `None` |
| Traversal.Follow | hierarchicalrecord/hierarchicalrecord.py:185-208 | `_get_value_from_key_list`: subscript the field name, then index, step by step; descending into `None` or a leaf raises TypeError (its laws: `FollowAppend`, `NoneHoldsNothing`, `Updates.FollowLast`) |
| Traversal.GetFieldAt | hierarchicalrecord/hierarchicalrecord.py:210-235 | `_get_field_from_key_list`: follow the inner steps, then raise KeyError if the container is not a dict, else subscript the name (its laws: `FieldExistsMatchesGet`, `Updates.SetFieldEffect`) |
| Traversal.ValueExistsAt | hierarchicalrecord/hierarchicalrecord.py:399-426 | `_check_if_value_exists`: false for a missing name or an index past the end, true at the last step, else recurse; a `None` part-way down holds nothing (its laws: `ValueExistsMatchesGet`, `NoneHoldsNothing`) |
| Traversal.FieldExistsAt | hierarchicalrecord/hierarchicalrecord.py:428-456 | `_check_if_field_exists`: the same walk over the inner steps, then key membership of the name (its laws: `FieldExistsMatchesGet`, `Updates.FieldExistsAtDict`) |
| Traversal.FollowAppend | hierarchicalrecord/hierarchicalrecord.py:204-208 | reading a path is reading its first part and then the rest from there, and fails with the first failure |
| Traversal.ValueExistsMatchesGet | hierarchicalrecord/hierarchicalrecord.py:399-426 | `_check_if_value_exists` is true iff `_get_value_from_key_list` succeeds; a KeyError or IndexError read means the test answers false; the test raises only TypeError, and only where the read does |
| Traversal.FieldExistsMatchesGet | hierarchicalrecord/hierarchicalrecord.py:428-456 | a field that can be read tests present; a field that tests absent (or raises) cannot be read; a present field is readable unless the container is not a dict; a missing inner field or an inner index past the end makes the test answer false, not raise; the test raises only TypeError |
| Traversal.FieldExistsThroughString | hierarchicalrecord/hierarchicalrecord.py:447 | field `x` below the string instance `"xyz"` tests present, via substring `in`, yet reading it raises KeyError |
| Traversal.NoneHoldsNothing | hierarchicalrecord/hierarchicalrecord.py:200-208 | once a path reads `None`, reading any further step raises TypeError and both existence tests answer false below it, so the writers vivify through it |
| Traversal.FollowAsWritten | hierarchicalrecord/hierarchicalrecord.py:200-208 | the read with the restart: a `None` part-way down is passed as `start=None` and the walk goes on from the top-level dict (its laws: `FollowAsWrittenDiffers`, `NoneRestartsAtTop`) |
| Traversal.FollowAsWrittenDiffers | hierarchicalrecord/hierarchicalrecord.py:200-208 | the walk as written, restarting at the top on a `None` instance, departs from the intended walk only where the intended walk raises TypeError |
| Traversal.NoneRestartsAtTop | hierarchicalrecord/hierarchicalrecord.py:200-208 | with `a0` = `None` and `b0` = 1 at the top, `a0.b0` reads 1 as written, where descending into `None` should raise TypeError |
| Traversal.ApplyEdit | hierarchicalrecord/hierarchicalrecord.py:257 | a final assignment, delete or append happens only in a dict, and leaves a dict |
| Traversal.EditAt | hierarchicalrecord/hierarchicalrecord.py:308-312 | a writer succeeds only on a dict and returns a dict |
| Traversal.SetValueAt | hierarchicalrecord/hierarchicalrecord.py:287-312 | `_set_value_from_key_list`: the descent ending in `start[x][i] = v` (its laws: `Updates.SetValueReadBack`, `Updates.SetValueFrame`) |
| Traversal.DelValueAt | hierarchicalrecord/hierarchicalrecord.py:237-260 | `_del_value_from_key_list`: the descent ending in `del start[x][i]` (its laws: `Updates.DelValueEffect`, `Updates.DelValueShifts`) |
| Traversal.SetFieldAt | hierarchicalrecord/hierarchicalrecord.py:314-341 | `_set_field_from_key_list` after its list check: the descent ending in `start[x] = xs` (its law: `Updates.SetFieldEffect`) |
| Traversal.DelFieldAt | hierarchicalrecord/hierarchicalrecord.py:262-285 | `_del_field_from_key_list`: the descent ending in `del start[x]` (its law: `Updates.DelFieldEffect`) |
| Traversal.AddToFieldAt | hierarchicalrecord/hierarchicalrecord.py:372-397 | `_add_to_field_from_key_list`: the descent ending in `start[x].append(v)` (its law: `Updates.AddToFieldEffect`) |
| Traversal.EditAtContainer | hierarchicalrecord/hierarchicalrecord.py:308-312 | a writer succeeds iff its inner steps read a container the edit applies to; the container then reads as edited; on failure it raises the read's or the edit's exception |
| Traversal.EditAtFrame | hierarchicalrecord/hierarchicalrecord.py:308-312 | a writer changes nothing on a path that leaves its inner steps |
| Traversal.LookupWellFormed | hierarchicalrecord/hierarchicalrecord.py:205 | the instances of a field of a well-formed dict are well-formed |
| Traversal.ApplyEditWellFormed | hierarchicalrecord/hierarchicalrecord.py:309 | a final edit with well-formed values keeps every dict's keys unique |
| Traversal.EditAtWellFormed | hierarchicalrecord/hierarchicalrecord.py:311-312 | a writer with well-formed values keeps every dict's keys unique |
| Updates.DivergesSnoc | hierarchicalrecord/hierarchicalrecord.py:308 | leaving a path either leaves its inner steps or takes a different last step |
| Updates.ApplyEditOtherNames | hierarchicalrecord/hierarchicalrecord.py:309 | a final edit leaves every other key of the dict as it was |
| Updates.EditAtLeavesOthers | hierarchicalrecord/hierarchicalrecord.py:309 | a writer changes nothing outside the edited field of the reached dict |
| Updates.FollowLast | hierarchicalrecord/hierarchicalrecord.py:204-205 | reading a path is reading its inner steps, subscripting the last name and indexing, failing at the first failure |
| Updates.SetValueReadBack | hierarchicalrecord/hierarchicalrecord.py:287-312 | `_set_value_from_key_list` succeeds iff the value can be read, raising the read's exception otherwise; afterwards the field list is the old one with that index replaced, and the value reads back |
| Updates.SetValueFrame | hierarchicalrecord/hierarchicalrecord.py:287-312 | setting a value changes nothing on any path that leaves its address |
| Updates.DelValueEffect | hierarchicalrecord/hierarchicalrecord.py:237-260 | `_del_value_from_key_list` succeeds iff the value can be read, raising the read's exception otherwise; the field list loses exactly that element |
| Updates.DelValueShifts | hierarchicalrecord/hierarchicalrecord.py:257 | after `del xs[i]`, instance `j` (and below) is old instance `j` before `i` and old `j+1` from `i` on |
| Updates.SetFieldEffect | hierarchicalrecord/hierarchicalrecord.py:314-341 | `_set_field_from_key_list` succeeds iff the inner steps reach a dict, and the field then reads back as exactly the new list |
| Updates.AddToFieldEffect | hierarchicalrecord/hierarchicalrecord.py:372-397 | `_add_to_field_from_key_list` succeeds iff the field can be read, and the field then is the old list plus the value at the end |
| Updates.FollowWellFormed | hierarchicalrecord/hierarchicalrecord.py:204-208 | what a well-formed record reads is well-formed |
| Updates.FieldExistsAtDict | hierarchicalrecord/hierarchicalrecord.py:447-456 | when the inner steps reach a dict, the field test answers key membership in it |
| Updates.DelFieldEffect | hierarchicalrecord/hierarchicalrecord.py:262-285 | `_del_field_from_key_list` succeeds iff the field can be read; afterwards it tests absent and reading it raises KeyError |
| Vivification.Segs | hierarchicalrecord/hierarchicalrecord.py:366-370 | the segments vivification walks: the inner steps, then the last segment |
| Vivification.Grown | hierarchicalrecord/hierarchicalrecord.py:361-365 | a missing field is created as `[None]`; the list is padded with `None` to hold a nonzero index; existing instances are kept; a list needing no padding is untouched |
| Vivification.Child | hierarchicalrecord/hierarchicalrecord.py:367-368 | the instance descended into is never `None`, and is the existing instance whenever that is not `None` |
| Vivification.Vivify | hierarchicalrecord/hierarchicalrecord.py:343-370 | vivification raises only TypeError or IndexError and turns a dict into a dict |
| Vivification.InitField | hierarchicalrecord/hierarchicalrecord.py:343-370 | the recursion with its `while` padding loop produces exactly the tree and exception of `Vivify` |
| Vivification.AssignSame | hierarchicalrecord/hierarchicalrecord.py:362 | writing a key's own list back leaves the dict unchanged |
| Vivification.VivifyFresh | hierarchicalrecord/hierarchicalrecord.py:343-370 | vivifying any address in an empty record raises nothing |
| Vivification.VivifyAtomic | hierarchicalrecord/hierarchicalrecord.py:343-370 | when vivification raises, the tree is exactly as it was: nothing has been created yet |
| Vivification.VivifyNoop | hierarchicalrecord/hierarchicalrecord.py:343-370 | vivifying an address whose field exists and holds the index changes nothing and raises nothing |
| Vivification.VivifyReaches | hierarchicalrecord/hierarchicalrecord.py:343-370 | after successful vivification the inner steps can be read; if they reach a dict, it holds the field; a nonzero index is in range, and index 0 is missing only from an empty existing field |
| Vivification.ReachesHere | hierarchicalrecord/hierarchicalrecord.py:361-365 | the one-segment case of `VivifyReaches` |
| Vivification.ReachedStep | hierarchicalrecord/hierarchicalrecord.py:369-370 | a descent step of `VivifyReaches` |
| Vivification.VivifyKeeps | hierarchicalrecord/hierarchicalrecord.py:343-370 | everything readable before, at a path that leaves the address, reads the same after vivification |
| Vivification.VivifyWellFormed | hierarchicalrecord/hierarchicalrecord.py:343-370 | vivification keeps every dict's keys unique |
| Vivification.FullyReachedStep | hierarchicalrecord/hierarchicalrecord.py:369-370 | a descent step of `VivifyChanges` |
| Vivification.VivifyFreshReaches | hierarchicalrecord/hierarchicalrecord.py:343-370 | in an empty record, vivification makes the whole address exist |
| Vivification.VivifyChanges | hierarchicalrecord/hierarchicalrecord.py:343-370 | a successful vivification either changes nothing, or leaves a dict at the inner steps whose field holds the index |
| Vivification.VivifyAbsent | hierarchicalrecord/hierarchicalrecord.py:361-362 | vivifying index 0 of a missing field creates it as exactly `[None]` |
| Record.KeyList | hierarchicalrecord/hierarchicalrecord.py:105-113 | `_dotted_to_list`: a string key is split on `.`, a list key is used as it is (its laws: `Address.Split`, `Address.JoinSplit`) |
| Record.ValueAddress | hierarchicalrecord/hierarchicalrecord.py:486-491 | a value key is accepted iff it is non-empty and every segment is indexed; it then parses to its steps; otherwise the discipline check's exception, and IndexError for an empty key list (`keyList[0]` in `_check_if_value_exists`, line 416) |
| Record.FieldAddress | hierarchicalrecord/hierarchicalrecord.py:524-528 | a field key is accepted iff `_no_leaf_index` passes, and then parses to inner steps and a non-empty name not ending in a digit |
| Record.GetValueOf | hierarchicalrecord/hierarchicalrecord.py:495-510 | `get_value`: convert the key, check `_reqs_indices`, read from the top (its laws: `RecordLaws.SetValueRoundTrip`, `EnumerationLaws.KeyReadsBack`) |
| Record.GetFieldOf | hierarchicalrecord/hierarchicalrecord.py:535-549 | `get_field`: convert the key, check `_no_leaf_index`, read the field from the top (its laws: `RecordLaws.SetFieldRoundTrip`, `RecordLaws.AddToFieldAppends`) |
| Record.ValueExistsOf | hierarchicalrecord/hierarchicalrecord.py:491 | `_check_if_value_exists(key)` from the top-level dict, after the key checks |
| Record.FieldExistsOf | hierarchicalrecord/hierarchicalrecord.py:531 | `_check_if_field_exists(key)` from the top-level dict, after the key checks |
| Record.SetValueOf | hierarchicalrecord/hierarchicalrecord.py:474-493 | `set_value`: key checks, vivify when the value test answers false, assign; new data and exception (its laws: the `SetValue*` lemmas of `RecordLaws`) |
| Record.SetFieldOf | hierarchicalrecord/hierarchicalrecord.py:512-533 | `set_field`: key checks, the list check, vivify when the field test answers false, assign (its laws: the `SetField*` lemmas) |
| Record.FirstInstanceKey | hierarchicalrecord/hierarchicalrecord.py:580 | `key[-1] = key[-1] + "0"`: the key of instance 0 of the named field (its law: `RecordLaws.FirstInstanceAddress`) |
| Record.AddToFieldOf | hierarchicalrecord/hierarchicalrecord.py:551-581 | `add_to_field`: append to a present field; otherwise raise ValueError, or `set_value` at instance 0 (its laws: the `AddToField*` lemmas) |
| Record.RemoveValueOf | hierarchicalrecord/hierarchicalrecord.py:583-598 | `remove_value`: delete the value when the value test answers true, else do nothing (its laws: the `RemoveValue*` lemmas) |
| Record.RemoveFieldOf | hierarchicalrecord/hierarchicalrecord.py:600-615 | `remove_field`: delete the field when the field test answers true, else do nothing (its laws: the `RemoveField*` lemmas) |
| Record.NamesValue | hierarchicalrecord/hierarchicalrecord.py:69 | `key[-1].isnumeric()`: the last character of a string key, the whole last segment of a list key; IndexError on an empty key |
| Record.GetItemOf | hierarchicalrecord/hierarchicalrecord.py:60-72 | `record[key]`: `get_value` or `get_field` by `NamesValue` (its law: `RecordLaws.GetItemListKeyQuirk`) |
| Record.SetItemOf | hierarchicalrecord/hierarchicalrecord.py:74-89 | `record[key] = value`: `set_value` or `set_field` by `NamesValue` |
| Record.DelItemOf | hierarchicalrecord/hierarchicalrecord.py:91-103 | `del record[key]`: `remove_value` or `remove_field` by `NamesValue` |
| RecordLaws.ValueSegmentsSplit | hierarchicalrecord/hierarchicalrecord.py:492 | a value address vivifies its inner steps, then its last field at its index |
| RecordLaws.SetValueRoundTrip | hierarchicalrecord/hierarchicalrecord.py:474-493 | after a `set_value(k, v)` that raises nothing, `get_value(k)` is `v` and `value_exists(k)` holds |
| RecordLaws.SetValueExisting | hierarchicalrecord/hierarchicalrecord.py:491-493 | on an existing value, `set_value` skips vivification, raises nothing, overwrites that one instance, and changes nothing on any path leaving it |
| RecordLaws.SetValueAtomic | hierarchicalrecord/hierarchicalrecord.py:474-493 | a `set_value` that raises leaves the record as it was |
| RecordLaws.SetValueEmptyFieldQuirk | hierarchicalrecord/hierarchicalrecord.py:363-365 | `set_value("a0", v)` on an existing empty field `a` raises IndexError: no padding happens for index 0 |
| RecordLaws.SetFieldRoundTrip | hierarchicalrecord/hierarchicalrecord.py:512-533 | after a `set_field(k, xs)` that raises nothing, the value was a list and `get_field(k)` is exactly it |
| RecordLaws.SetFieldAtomic | hierarchicalrecord/hierarchicalrecord.py:529-530 | `set_field` with a value that is not a list raises ValueError once the key is accepted, leaving the record as it was; any `set_field` that raises leaves the record as it was |
| RecordLaws.AddToFieldAppends | hierarchicalrecord/hierarchicalrecord.py:574-575 | on a readable field, `add_to_field` raises nothing and the field becomes its old list plus the value |
| RecordLaws.ValueExistsFromField | hierarchicalrecord/hierarchicalrecord.py:580-581 | if a field tests absent, instance 0 of it tests absent |
| RecordLaws.FirstInstanceAddress | hierarchicalrecord/hierarchicalrecord.py:580 | the key `key[-1] + "0"` addresses instance 0 of the field the key names |
| RecordLaws.AddToFieldMissing | hierarchicalrecord/hierarchicalrecord.py:576-581 | on a missing field, `add_to_field` raises ValueError without `create_if_necessary`, and is otherwise `set_value` at instance 0 |
| RecordLaws.AddToFieldCreates | hierarchicalrecord/hierarchicalrecord.py:576-581 | when creating a missing field through `add_to_field` raises nothing, the field is left as exactly `[v]` |
| RecordLaws.AddToFieldAtomic | hierarchicalrecord/hierarchicalrecord.py:551-581 | an `add_to_field` that raises leaves the record as it was |
| RecordLaws.RemoveValueEffect | hierarchicalrecord/hierarchicalrecord.py:583-598 | `remove_value` of an absent value is a no-op; one that raises changes nothing |
| RecordLaws.RemoveValueRemoves | hierarchicalrecord/hierarchicalrecord.py:597-598 | `remove_value` of a present value raises nothing, and the field loses exactly that instance |
| RecordLaws.RemoveValueShifts | hierarchicalrecord/hierarchicalrecord.py:597-598 | after `remove_value`, later instances of the field shift down by one, and paths outside the field read as before |
| RecordLaws.RemoveFieldAbsent | hierarchicalrecord/hierarchicalrecord.py:614-615 | `remove_field` of a field that tests absent is a no-op; one that raises changes nothing |
| RecordLaws.MissingInnerIsAbsent | hierarchicalrecord/hierarchicalrecord.py:447-453 | a missing inner field or an inner index past the end makes the field test answer false without raising; `remove_field` then does nothing, and `add_to_field` without `create_if_necessary` raises only ValueError |
| RecordLaws.RemoveFieldDeletes | hierarchicalrecord/hierarchicalrecord.py:600-615 | `remove_field` of a readable field raises nothing; the field then tests absent and reading it raises KeyError; paths outside it read as before |
| RecordLaws.RemoveFieldThroughString | hierarchicalrecord/hierarchicalrecord.py:614-615 | `remove_field(["a0", "x"])` with `a0` the string `"xyz"` tests present and then raises TypeError, leaving the record as it was |
| RecordLaws.SetValueThroughNone | hierarchicalrecord/hierarchicalrecord.py:474-493 | on `{"a": [None]}`, `set_value("a0.b0", v)` raises nothing, turns the `None` into `{"b": [v]}`, and `a0.b0` reads back `v` |
| RecordLaws.SetFieldThroughNone | hierarchicalrecord/hierarchicalrecord.py:512-533 | on `{"a": [None]}`, `set_field("a0.b", xs)` raises nothing and turns the `None` into `{"b": xs}` |
| RecordLaws.AddToFieldThroughNone | hierarchicalrecord/hierarchicalrecord.py:551-581 | on `{"a": [None]}`, `add_to_field("a0.b", v)` raises nothing and turns the `None` into `{"b": [v]}` |
| RecordLaws.SetValueKeepsOthers | hierarchicalrecord/hierarchicalrecord.py:474-493 | every readable path that leaves the address reads the same after `set_value`, whether it overwrote, vivified or raised |
| RecordLaws.SetFieldKeepsOthers | hierarchicalrecord/hierarchicalrecord.py:512-533 | every readable path outside the named field reads the same after `set_field` |
| RecordLaws.AddToFieldKeepsOthers | hierarchicalrecord/hierarchicalrecord.py:551-581 | every readable path outside the named field reads the same after `add_to_field`, whether it appended, created the field or raised |
| RecordLaws.RemoveValueKeepsOthers | hierarchicalrecord/hierarchicalrecord.py:583-598 | every path outside the instance list the address ends in reads the same after `remove_value` |
| RecordLaws.RemoveFieldKeepsOthers | hierarchicalrecord/hierarchicalrecord.py:600-615 | every path outside the named field reads the same after `remove_field` |
| RecordLaws.GetItemListKeyQuirk | hierarchicalrecord/hierarchicalrecord.py:69-72 | `record[["a0", "b1"]]` tests the whole last segment with `isnumeric` and so reads a field, raising ValueError; the string key `"a0.b1"` reads the value |
| RecordLaws.SetItemRoundTrip | hierarchicalrecord/hierarchicalrecord.py:60-89 | after `record[key] = value` raises nothing, `record[key]` gives back `value`: the value for a value key, the list for a field key |
| RecordLaws.DelItemRemovesField | hierarchicalrecord/hierarchicalrecord.py:91-103 | `del record[key]` on a readable field key raises nothing, and then `record[key]` raises KeyError |
| RecordLaws.SetValueWellFormed | hierarchicalrecord/hierarchicalrecord.py:474-493 | `set_value` keeps every dict's keys unique |
| RecordLaws.SetFieldWellFormed | hierarchicalrecord/hierarchicalrecord.py:512-533 | `set_field` keeps every dict's keys unique |
| RecordLaws.AddToFieldWellFormed | hierarchicalrecord/hierarchicalrecord.py:551-581 | `add_to_field` keeps every dict's keys unique |
| RecordLaws.RemoveValueWellFormed | hierarchicalrecord/hierarchicalrecord.py:583-598 | `remove_value` keeps every dict's keys unique |
| RecordLaws.RemoveFieldWellFormed | hierarchicalrecord/hierarchicalrecord.py:600-615 | `remove_field` keeps every dict's keys unique |
| HierarchicalRecords.HierarchicalRecord.constructor | hierarchicalrecord/hierarchicalrecord.py:33-34 | a new record is empty |
| HierarchicalRecords.HierarchicalRecord.SetValue | hierarchicalrecord/hierarchicalrecord.py:474-493 | checks the key, vivifies through `InitField` when the value is missing, assigns; the new data and exception are those of `SetValueOf`, and keys stay unique |
| HierarchicalRecords.HierarchicalRecord.SetField | hierarchicalrecord/hierarchicalrecord.py:512-533 | likewise for `set_field` and `SetFieldOf` |
| HierarchicalRecords.HierarchicalRecord.AddToField | hierarchicalrecord/hierarchicalrecord.py:551-581 | likewise for `add_to_field` and `AddToFieldOf`, calling `SetValue` for a missing field |
| HierarchicalRecords.HierarchicalRecord.RemoveValue | hierarchicalrecord/hierarchicalrecord.py:583-598 | likewise for `remove_value` and `RemoveValueOf` |
| HierarchicalRecords.HierarchicalRecord.RemoveField | hierarchicalrecord/hierarchicalrecord.py:600-615 | likewise for `remove_field` and `RemoveFieldOf` |
| HierarchicalRecords.HierarchicalRecord.SetItem | hierarchicalrecord/hierarchicalrecord.py:74-89 | `record[key] = value` is `set_value` when `NamesValue` holds (the last character of a string key, the whole last segment of a list key, is numeric) and `set_field` otherwise; IndexError on an empty key |
| HierarchicalRecords.HierarchicalRecord.DelItem | hierarchicalrecord/hierarchicalrecord.py:91-103 | `del record[key]` is `remove_value` when `NamesValue` holds (the last character of a string key, the whole last segment of a list key, is numeric) and `remove_field` otherwise; IndexError on an empty key |
| HierarchicalRecords.HierarchicalRecord.Keys | hierarchicalrecord/hierarchicalrecord.py:643-665 | `keys()` is the key of each entry of the record, in visiting order |
| HierarchicalRecords.HierarchicalRecord.Leaves | hierarchicalrecord/hierarchicalrecord.py:617-641 | `leaves()` is the (key, instance) pair of each non-dict entry, in visiting order |
| HierarchicalRecords.HierarchicalRecord.Values | hierarchicalrecord/hierarchicalrecord.py:667-674 | `values()` reads `self[k]` for each key, stopping at the first exception; in a well-formed record of well-named fields it is exactly the instances listed |
| Enumeration.Entries | hierarchicalrecord/hierarchicalrecord.py:656-657 | every listed path is non-empty |
| Enumeration.EntriesOf | hierarchicalrecord/hierarchicalrecord.py:662-664 | an instance's own entry comes first, before those below it |
| Enumeration.LeafEntries | hierarchicalrecord/hierarchicalrecord.py:637-640 | the leaf entries are exactly the entries whose instance is not a dict |
| Enumeration.KeysFrom | hierarchicalrecord/hierarchicalrecord.py:643-665 | the outer loop of `keys(start, init_path)` lists the keys of the entries below `start`, under `init_path` |
| Enumeration.InstKeysFrom | hierarchicalrecord/hierarchicalrecord.py:657-664 | the inner loop lists each instance's key, then, for a dict, the recursive call's keys |
| Enumeration.LeavesFrom | hierarchicalrecord/hierarchicalrecord.py:617-641 | the outer loop of `leaves(start, init_path)` lists the pairs of the non-dict entries below `start` |
| Enumeration.InstLeavesFrom | hierarchicalrecord/hierarchicalrecord.py:632-640 | the inner loop lists a pair for a non-dict instance and the recursive call's pairs for a dict |
| Enumeration.ValuesFrom | hierarchicalrecord/hierarchicalrecord.py:671-674 | the loop of `values()` gives `self[k]` for each key in order, or the first exception raised |
| Enumeration.LabelStep | hierarchicalrecord/hierarchicalrecord.py:658-661 | the key of one more step is `x + str(i)` or `".".join([init_path, x + str(i)])` |
| Enumeration.KeysOfUnder | hierarchicalrecord/hierarchicalrecord.py:664 | the recursive call's keys under `init_path=path` are the keys of the child's entries seen from the parent |
| Enumeration.KeysOfEntriesOf | hierarchicalrecord/hierarchicalrecord.py:659-664 | what one turn of the inner loop of `keys` adds |
| Enumeration.PairsOfEntriesOf | hierarchicalrecord/hierarchicalrecord.py:634-640 | what one turn of the inner loop of `leaves` adds |
| Enumeration.ValuesOf | hierarchicalrecord/hierarchicalrecord.py:667-674 | `values()` as a function of the keys: `self[k]` for each key in order, or the first exception (its laws: `ValuesFrom`, `EnumerationLaws.ValuesOfReads`, `ValuesOfRaises`, `ValuesMatchKeys`) |
| EnumerationLaws.ValuesOfReads | hierarchicalrecord/hierarchicalrecord.py:671-674 | a `values()` that succeeds has one value per key, each what `self[k]` reads |
| EnumerationLaws.ValuesOfRaises | hierarchicalrecord/hierarchicalrecord.py:672-673 | if `self[k]` raises for some key and every earlier key reads, `values()` raises that exception |
| EnumerationLaws.EntriesMember | hierarchicalrecord/hierarchicalrecord.py:656-657 | each entry is an instance of a field of the dict, or lies below one |
| EnumerationLaws.EntriesContain | hierarchicalrecord/hierarchicalrecord.py:656-657 | every instance of every field is listed, with everything below it |
| EnumerationLaws.EntriesResolve | hierarchicalrecord/hierarchicalrecord.py:656-665 | in a well-formed record, every listed path reads back the instance it is listed with |
| EnumerationLaws.FollowCovered | hierarchicalrecord/hierarchicalrecord.py:656-665 | every non-empty path that reads an instance is listed with it |
| EnumerationLaws.KeysExactly | hierarchicalrecord/hierarchicalrecord.py:643-665 | in a well-formed record, (path, instance) is listed iff the path is non-empty and reads that instance |
| EnumerationLaws.KeysExist | hierarchicalrecord/hierarchicalrecord.py:643-665 | every listed key passes `_check_if_value_exists` |
| EnumerationLaws.LeavesExactly | hierarchicalrecord/hierarchicalrecord.py:617-641 | in a well-formed record, `leaves()` lists (path, value) iff the path reads that value and it is not a dict |
| EnumerationLaws.ParentFirstUnder | hierarchicalrecord/hierarchicalrecord.py:664 | placing a child's listing under its key keeps parents before their descendants |
| EnumerationLaws.KeysParentFirst | hierarchicalrecord/hierarchicalrecord.py:656-665 | each dict instance's key is followed at once by the keys of everything below it, in their own order |
| EnumerationLaws.InstEntriesParentFirst | hierarchicalrecord/hierarchicalrecord.py:657-664 | the same, for the instances of one field |
| EnumerationLaws.EntriesOfParentFirst | hierarchicalrecord/hierarchicalrecord.py:662-664 | the same, for one instance and what lies below it |
| EnumerationLaws.PathsListedOnce | hierarchicalrecord/hierarchicalrecord.py:643-665 | in a well-formed record no path is listed twice: every instance is listed exactly once |
| EnumerationLaws.InstPathsListedOnce | hierarchicalrecord/hierarchicalrecord.py:657-664 | the same, for the instances of one field |
| EnumerationLaws.EntryPathsListedOnce | hierarchicalrecord/hierarchicalrecord.py:662-664 | the same, for one instance and what lies below it |
| EnumerationLaws.KeysListedOnce | hierarchicalrecord/hierarchicalrecord.py:643-665 | with every field well named, `keys()` writes no key twice |
| EnumerationLaws.FormatPathEndsInDigit | hierarchicalrecord/hierarchicalrecord.py:659-661 | every key ends in a digit, so `self[k]` reads a value |
| EnumerationLaws.KeyReadsBack | hierarchicalrecord/hierarchicalrecord.py:673 | `self[k]` on a listed key of well-named fields gives the listed instance |
| EnumerationLaws.ValuesMatchKeys | hierarchicalrecord/hierarchicalrecord.py:667-674 | in a well-formed record of well-named fields, `values()` raises nothing and its `i`-th element is the instance at `keys()[i]` |
| EnumerationLaws.ValuesDigitNameQuirk | hierarchicalrecord/hierarchicalrecord.py:672-673 | with a field named `v2`, `keys()` is `["v20"]`, and `values()` raises KeyError looking up field `v` |
| AsWritten.ValueExistsAsWritten | hierarchicalrecord/hierarchicalrecord.py:414-426 | `_check_if_value_exists` with the restart at a `None` (its law: `ValueExistsAgrees`) |
| AsWritten.FieldExistsAsWritten | hierarchicalrecord/hierarchicalrecord.py:443-456 | `_check_if_field_exists` with the restart (its law: `FieldExistsAgrees`) |
| AsWritten.EditAtAsWritten | hierarchicalrecord/hierarchicalrecord.py:304-312 | the writers' descent with the restart; after a restart the edited top-level dict is what the call produces |
| AsWritten.SetValueAsWritten | hierarchicalrecord/hierarchicalrecord.py:474-493 | `set_value` with the restarting test and assignment |
| AsWritten.SetFieldAsWritten | hierarchicalrecord/hierarchicalrecord.py:512-533 | `set_field` with the restarting test and assignment |
| AsWritten.AddToFieldAsWritten | hierarchicalrecord/hierarchicalrecord.py:551-581 | `add_to_field` with the restarting test and append |
| AsWritten.RemoveValueAsWritten | hierarchicalrecord/hierarchicalrecord.py:583-598 | `remove_value` with the restarting test and delete |
| AsWritten.RemoveFieldAsWritten | hierarchicalrecord/hierarchicalrecord.py:600-615 | `remove_field` with the restarting test and delete |
| AsWritten.EditAtAgrees | hierarchicalrecord/hierarchicalrecord.py:304-312 | wherever the corrected writer succeeds, the writer as written does not restart and produces the same tree |
| AsWritten.ValueExistsAgrees | hierarchicalrecord/hierarchicalrecord.py:414-426 | a value the corrected test finds present, the test as written finds present too |
| AsWritten.FieldExistsAgrees | hierarchicalrecord/hierarchicalrecord.py:443-456 | a field the corrected test finds present, the test as written finds present too |
| AsWritten.SetValueOverwritesTop | hierarchicalrecord/hierarchicalrecord.py:304-305 | on `{"a": [None], "b": [1]}`, `set_value("a0.b0", v)` as written overwrites top-level `b0`; corrected, `b0` still reads 1 |
| AsWritten.SetFieldOverwritesTop | hierarchicalrecord/hierarchicalrecord.py:333-334 | on the same record, `set_field("a0.b", xs)` as written replaces top-level `b`; corrected, `b0` still reads 1 |
| AsWritten.AddToFieldAppendsTop | hierarchicalrecord/hierarchicalrecord.py:389-390 | on the same record, `add_to_field("a0.b", v)` as written appends to top-level `b`; corrected, `b0` still reads 1 |
| AsWritten.RemoveValueDeletesTop | hierarchicalrecord/hierarchicalrecord.py:252-253 | on the same record, `remove_value("a0.b0")` as written deletes top-level `b0`; corrected, nothing changes |
| AsWritten.RemoveFieldDeletesTop | hierarchicalrecord/hierarchicalrecord.py:277-278 | on the same record, `remove_field("a0.b")` as written deletes top-level `b`; corrected, nothing changes |

## Left out

- The constructor's `from_file` path, `toJSON`/`fromJSON`, `__str__` and `__repr__`: file I/O and the JSON library.
- `recordconf.py` (CSV loading), `recordvalidator.py` (a stub with no rules), the `bin/` command-line tool and `setup.py` are not part of this model.
- `set_data`, `get_data` and `__iter__`: plain accessors of `data` and its top-level names. `__eq__` is value equality on the datatype.
- Keys that are neither a string nor a list: the named methods (`set_value`, `get_value`, `set_field`, `get_field`, `add_to_field`, `remove_value`, `remove_field`) raise ValueError before anything else. Item access (`record[key]`, `record[key] = v`, `del record[key]`) evaluates `key[-1]` first, so `record[5]` raises TypeError and a dict key raises KeyError. Other sequence types get past `key[-1]` and then reach the named methods' ValueError. The `Key` type admits only strings and lists, so none of this is modelled.
- `str.isnumeric` and the regex `\d` also accept non-ASCII digits. The model treats only `0`–`9` as digits.
- Field values that are not Python lists are not modelled; every field holds a list of instances.
- Float leaves are reals. No arithmetic is done on leaves.
- In-place aliasing is not modelled. The source mutates shared sub-dicts and lists, and it mutates the caller's key list in `add_to_field` (`key[-1] = key[-1] + "0"`). The model rebuilds values instead.
- The private helpers re-run the index-discipline check at every level of recursion. The model checks once at the public entry, which is equivalent because every suffix of an accepted key is accepted.
- Traversal.Follow, Traversal.ValueExistsAt, Traversal.FieldExistsAt, Traversal.EditAt, Vivification.Vivify and the `Record` operations: these model the corrected descent, where a `None` part-way down holds nothing. Reads through it raise TypeError, the existence tests answer false, and the writers vivify through it. As written, the walk restarts at the top-level dict: reads and tests then look at the top, and `set_value`, `set_field`, `add_to_field`, `remove_value` and `remove_field` overwrite, append to or delete top-level entries. `AsWritten` models that restart, and the rows under Findings show it.
- Python dicts cannot hold a key twice. The association lists can, so the operations are proved for records whose dicts have unique keys (`WellFormed`), which every class method preserves.

## Findings

| source | as written | input that shows it | evidently intended | confidence | as-written member | corrected member |
|---|---|---|---|---|---|---|
| hierarchicalrecord/hierarchicalrecord.py:200-201 | every recursive helper starts with `if start is None: start = self.get_data()`, so a `None` instance reached part-way down restarts the walk at the top-level dict | record `{"a": [None], "b": [1]}`, `get_value("a0.b0")` returns 1 | descending into `None` raises TypeError, as `None["b"]` does | not executed | Traversal.NoneRestartsAtTop | Traversal.NoneHoldsNothing |
| hierarchicalrecord/hierarchicalrecord.py:304-305 | `_set_value_from_key_list` restarts at a `None` instance, so the assignment meant below it lands in the top-level dict | record `{"a": [None], "b": [1]}`, `set_value("a0.b0", 2)` sets top-level `b0` to 2 | `set_value` vivifies through the `None`, leaving `a0` = `{"b": [2]}` and top-level `b0` = 1 | not executed | AsWritten.SetValueOverwritesTop | RecordLaws.SetValueKeepsOthers |
| hierarchicalrecord/hierarchicalrecord.py:333-334 | `_set_field_from_key_list` restarts the same way | same record, `set_field("a0.b", [2])` replaces top-level `b` | `a0` becomes `{"b": [2]}` and top-level `b` is untouched | not executed | AsWritten.SetFieldOverwritesTop | RecordLaws.SetFieldKeepsOthers |
| hierarchicalrecord/hierarchicalrecord.py:389-390 | `_add_to_field_from_key_list` restarts the same way | same record, `add_to_field("a0.b", 2)` makes top-level `b` `[1, 2]` | `a0` becomes `{"b": [2]}` and top-level `b` is untouched | not executed | AsWritten.AddToFieldAppendsTop | RecordLaws.AddToFieldKeepsOthers |
| hierarchicalrecord/hierarchicalrecord.py:252-253 | `_del_value_from_key_list` restarts the same way, and the existence test before it restarts too, so it finds top-level `b0` | same record, `remove_value("a0.b0")` deletes top-level `b0` | nothing is found under the `None` and nothing changes | not executed | AsWritten.RemoveValueDeletesTop | RecordLaws.RemoveValueKeepsOthers |
| hierarchicalrecord/hierarchicalrecord.py:277-278 | `_del_field_from_key_list` restarts the same way, after a restarting existence test | same record, `remove_field("a0.b")` deletes top-level `b` | nothing is found under the `None` and nothing changes | not executed | AsWritten.RemoveFieldDeletesTop | RecordLaws.RemoveFieldKeepsOthers |
