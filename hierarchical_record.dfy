/** The `HierarchicalRecord` class: the record's dict held in `data`, and
    the public mutators performing, step by step, the operation their
    specification function describes. */
module HierarchicalRecords {
  import opened Results
  import opened Tree
  import opened Address
  import opened Traversal
  import opened Vivification
  import opened Record
  import opened RecordLaws
  import opened Enumeration
  import opened EnumerationLaws

  class HierarchicalRecord {
    /** `self.data`: the top-level dict. */
    var data: seq<Field>

    /** Every dict in the record has each key once. */
    ghost predicate Valid()
      reads this
    {
      WellFormed(Node(data))
    }

    /** `HierarchicalRecord()`: an empty record. */
    constructor()
      ensures Valid() && data == []
    {
      data := [];
    }

    /** `set_value`: check the key, vivify if the value is missing, assign. */
    method SetValue(key: Key, v: Instance) returns (err: Option<Error>)
      requires Valid() && WellFormed(v)
      modifies this
      ensures Valid()
      ensures Outcome(data, err) == SetValueOf(old(data), key, v)
    {
      SetValueWellFormed(data, key, v);
      var addr := ValueAddress(key);
      if addr.Err? {
        return Some(addr.error);
      }
      var p := addr.value;
      var exists_ := ValueExistsAt(Node(data), p);
      if exists_.Err? {
        return Some(exists_.error);
      }
      if !exists_.value {
        var t, e := InitField(Node(data), ValueSegments(p));
        data := t.fields;
        if e.Some? {
          return e;
        }
      }
      var r := SetValueAt(Node(data), p, v);
      if r.Err? {
        return Some(r.error);
      }
      data := r.value.fields;
      return None;
    }

    /** `set_field`: check the key and that the value is a list, vivify if
        the field is missing, replace the field's list. */
    method SetField(key: Key, value: Instance) returns (err: Option<Error>)
      requires Valid() && WellFormed(value)
      modifies this
      ensures Valid()
      ensures Outcome(data, err) == SetFieldOf(old(data), key, value)
    {
      SetFieldWellFormed(data, key, value);
      var addr := FieldAddress(key);
      if addr.Err? {
        return Some(addr.error);
      }
      var (inner, name) := addr.value;
      if !value.List? {
        return Some(NotAList);
      }
      var exists_ := FieldExistsAt(Node(data), inner, name);
      if exists_.Err? {
        return Some(exists_.error);
      }
      if !exists_.value {
        var t, e := InitField(Node(data), FieldSegments(inner, name));
        data := t.fields;
        if e.Some? {
          return e;
        }
      }
      var r := SetFieldAt(Node(data), inner, name, value.items);
      if r.Err? {
        return Some(r.error);
      }
      data := r.value.fields;
      return None;
    }

    /** `add_to_field`: append to an existing field; otherwise raise, or
        set index 0 of the field through `set_value`. */
    method AddToField(key: Key, v: Instance, createIfNecessary: bool) returns (err: Option<Error>)
      requires Valid() && WellFormed(v)
      modifies this
      ensures Valid()
      ensures Outcome(data, err) == AddToFieldOf(old(data), key, v, createIfNecessary)
    {
      AddToFieldWellFormed(data, key, v, createIfNecessary);
      var addr := FieldAddress(key);
      if addr.Err? {
        return Some(addr.error);
      }
      var (inner, name) := addr.value;
      var exists_ := FieldExistsAt(Node(data), inner, name);
      if exists_.Err? {
        return Some(exists_.error);
      }
      if exists_.value {
        var r := AddToFieldAt(Node(data), inner, name, v);
        if r.Err? {
          return Some(r.error);
        }
        data := r.value.fields;
        return None;
      }
      if !createIfNecessary {
        return Some(FieldNotFound);
      }
      err := SetValue(FirstInstanceKey(key), v);
    }

    /** `remove_value`: delete the instance if it exists. */
    method RemoveValue(key: Key) returns (err: Option<Error>)
      requires Valid()
      modifies this
      ensures Valid()
      ensures Outcome(data, err) == RemoveValueOf(old(data), key)
    {
      RemoveValueWellFormed(data, key);
      var addr := ValueAddress(key);
      if addr.Err? {
        return Some(addr.error);
      }
      var p := addr.value;
      var exists_ := ValueExistsAt(Node(data), p);
      if exists_.Err? {
        return Some(exists_.error);
      }
      if exists_.value {
        var r := DelValueAt(Node(data), p);
        if r.Err? {
          return Some(r.error);
        }
        data := r.value.fields;
      }
      return None;
    }

    /** `remove_field`: delete the field if it exists. */
    method RemoveField(key: Key) returns (err: Option<Error>)
      requires Valid()
      modifies this
      ensures Valid()
      ensures Outcome(data, err) == RemoveFieldOf(old(data), key)
    {
      RemoveFieldWellFormed(data, key);
      var addr := FieldAddress(key);
      if addr.Err? {
        return Some(addr.error);
      }
      var (inner, name) := addr.value;
      var exists_ := FieldExistsAt(Node(data), inner, name);
      if exists_.Err? {
        return Some(exists_.error);
      }
      if exists_.value {
        var r := DelFieldAt(Node(data), inner, name);
        if r.Err? {
          return Some(r.error);
        }
        data := r.value.fields;
      }
      return None;
    }

    /** `record[key] = value`. */
    method SetItem(key: Key, value: Instance) returns (err: Option<Error>)
      requires Valid() && WellFormed(value)
      modifies this
      ensures Valid()
      ensures Outcome(data, err) == SetItemOf(old(data), key, value)
    {
      var isValue := NamesValue(key);
      if isValue.Err? {
        return Some(isValue.error);
      }
      if isValue.value {
        err := SetValue(key, value);
      } else {
        err := SetField(key, value);
      }
    }

    /** `del record[key]`. */
    method DelItem(key: Key) returns (err: Option<Error>)
      requires Valid()
      modifies this
      ensures Valid()
      ensures Outcome(data, err) == DelItemOf(old(data), key)
    {
      var isValue := NamesValue(key);
      if isValue.Err? {
        return Some(isValue.error);
      }
      if isValue.value {
        err := RemoveValue(key);
      } else {
        err := RemoveField(key);
      }
    }

    /** `keys()`: every instance's key, from the top-level dict. */
    method Keys() returns (ks: seq<string>)
      ensures ks == KeysOf(None, Entries(data))
    {
      ks := KeysFrom(data, None);
    }

    /** `leaves()`: every non-dict instance with its key. */
    method Leaves() returns (ls: seq<(string, Instance)>)
      ensures ls == PairsOf(None, LeafEntries(Entries(data)))
    {
      ls := LeavesFrom(data, None);
    }

    /** `values()`: `self[key]` for each key of `keys()`. When every field
        is well named, that is the instance each key was listed for. */
    method Values() returns (r: Result<seq<Instance>>)
      ensures r == ValuesOf(data, KeysOf(None, Entries(data)))
      ensures Valid() && WellNamedPaths(Entries(data)) ==> r == Ok(Insts(Entries(data)))
    {
      var ks := KeysFrom(data, None);
      r := ValuesFrom(data, ks);
      if Valid() && WellNamedPaths(Entries(data)) {
        ValuesMatchKeys(data);
      }
    }
  }
}
