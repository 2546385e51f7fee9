/** The writers and existence tests exactly as written. Every recursive
    `_*_from_key_list` and `_check_if_*` helper begins with
    `if start is None: start = self.get_data()`, meant for the outermost
    call; but an instance that is `None` part-way down is passed on as
    `start=None` too, and the walk restarts at the record's top-level dict.
    Python mutates in place, so the one edit a writer makes lands wherever
    the restarted walk ends. The rest of the model uses the corrected
    descent, where a `None` holds nothing (`NoneHoldsNothing`). */
module AsWritten {
  import opened Results
  import opened Tree
  import opened Address
  import opened Traversal
  import opened Updates
  import opened Vivification
  import opened Record
  import RecordLaws

  // ---------------------------------------------------------------------
  // The helpers with the restart
  // ---------------------------------------------------------------------

  /** `_check_if_value_exists` as written, in a record whose top-level
      dict is `root`. */
  function ValueExistsAsWritten(root: Instance, start: Instance, p: seq<Step>): Result<bool>
    requires |p| >= 1
    decreases |p|
  {
    var here := if start == Null then root else start;
    var has :- Contains(here, p[0].name);
    if !has then Ok(false)
    else
      var xs :- Subscript(here, p[0].name);
      if p[0].index > |xs| - 1 then Ok(false)
      else if |p| == 1 then Ok(true)
      else ValueExistsAsWritten(root, xs[p[0].index], p[1..])
  }

  /** `_check_if_field_exists` as written. */
  function FieldExistsAsWritten(root: Instance, start: Instance, inner: seq<Step>, name: string): Result<bool>
    decreases |inner|
  {
    var here := if start == Null then root else start;
    if inner == [] then Contains(here, name)
    else
      var has :- Contains(here, inner[0].name);
      if !has then Ok(false)
      else
        var xs :- Subscript(here, inner[0].name);
        if inner[0].index > |xs| - 1 then Ok(false)
        else FieldExistsAsWritten(root, xs[inner[0].index], inner[1..], name)
  }

  /** The shared descent of the writers as written. The flag says whether
      the walk restarted: then the value is the whole new top-level dict,
      which every enclosing call passes up unchanged, since Python changed
      it in place and the enclosing dicts were not written to. Otherwise
      the value is the new `start`, as in `EditAt`. */
  function EditAtAsWritten(root: Instance, start: Instance, inner: seq<Step>, e: Edit): Result<(bool, Instance)>
    decreases |inner|
  {
    var here := if start == Null then root else start;
    if inner == [] then
      var c :- ApplyEdit(here, e);
      Ok((start == Null, c))
    else
      var xs :- Subscript(here, inner[0].name);
      var x :- At(xs, inner[0].index);
      var (restarted, x') :- EditAtAsWritten(root, x, inner[1..], e);
      if restarted then Ok((true, x'))
      else Ok((start == Null, Node(Assign(here.fields, inner[0].name, xs[inner[0].index := x']))))
  }

  /** A writer run on the whole record: the new top-level dict. */
  function WriteAsWritten(data: seq<Field>, inner: seq<Step>, e: Edit): Result<seq<Field>>
  {
    var (_, t) :- EditAtAsWritten(Node(data), Node(data), inner, e);
    if t.Node? then Ok(t.fields) else Err(TypeError)
  }

  // ---------------------------------------------------------------------
  // Where the two agree
  // ---------------------------------------------------------------------

  /** Wherever a corrected writer succeeds no `None` lay on its way, so the
      writer as written does the same edit without restarting. */
  lemma {:induction false} EditAtAgrees(root: Instance, start: Instance, inner: seq<Step>, e: Edit)
    requires EditAt(start, inner, e).Ok?
    ensures EditAtAsWritten(root, start, inner, e) == Ok((false, EditAt(start, inner, e).value))
    decreases |inner|
  {
    if inner != [] {
      var xs := Subscript(start, inner[0].name).value;
      EditAtAgrees(root, xs[inner[0].index], inner[1..], e);
    }
  }

  /** Wherever the corrected value test answers true, the test as written
      does too. */
  lemma {:induction false} ValueExistsAgrees(root: Instance, start: Instance, p: seq<Step>)
    requires |p| >= 1 && ValueExistsAt(start, p) == Ok(true)
    ensures ValueExistsAsWritten(root, start, p) == Ok(true)
    decreases |p|
  {
    if |p| > 1 {
      var xs := Subscript(start, p[0].name).value;
      ValueExistsAgrees(root, xs[p[0].index], p[1..]);
    }
  }

  /** Wherever the corrected field test answers true, the test as written
      does too. */
  lemma {:induction false} FieldExistsAgrees(root: Instance, start: Instance, inner: seq<Step>, name: string)
    requires FieldExistsAt(start, inner, name) == Ok(true)
    ensures FieldExistsAsWritten(root, start, inner, name) == Ok(true)
    decreases |inner|
  {
    if inner != [] {
      var xs := Subscript(start, inner[0].name).value;
      FieldExistsAgrees(root, xs[inner[0].index], inner[1..], name);
    }
  }

  // ---------------------------------------------------------------------
  // The record operations as written
  // ---------------------------------------------------------------------

  /** `set_value` as written: the test and the assignment restart at a
      `None`; vivification does not, as it replaces each `None` it meets. */
  function SetValueAsWritten(data: seq<Field>, key: Key, v: Instance): Outcome
  {
    match ValueAddress(key)
    case Err(e) => Outcome(data, Some(e))
    case Ok(p) =>
      match ValueExistsAsWritten(Node(data), Node(data), p)
      case Err(e) => Outcome(data, Some(e))
      case Ok(exists_) =>
        var (t, verr) := if exists_ then (Node(data), None) else Vivify(Node(data), ValueSegments(p));
        if verr.Some? then Outcome(t.fields, verr)
        else
          match WriteAsWritten(t.fields, Init(p), SetInstance(Last(p).name, Last(p).index, v))
          case Err(e) => Outcome(t.fields, Some(e))
          case Ok(u) => Outcome(u, None)
  }

  /** `set_field` as written. */
  function SetFieldAsWritten(data: seq<Field>, key: Key, value: Instance): Outcome
  {
    match FieldAddress(key)
    case Err(e) => Outcome(data, Some(e))
    case Ok((inner, name)) =>
      if !value.List? then Outcome(data, Some(NotAList))
      else
        match FieldExistsAsWritten(Node(data), Node(data), inner, name)
        case Err(e) => Outcome(data, Some(e))
        case Ok(exists_) =>
          var (t, verr) := if exists_ then (Node(data), None) else Vivify(Node(data), FieldSegments(inner, name));
          if verr.Some? then Outcome(t.fields, verr)
          else
            match WriteAsWritten(t.fields, inner, SetList(name, value.items))
            case Err(e) => Outcome(t.fields, Some(e))
            case Ok(u) => Outcome(u, None)
  }

  /** `add_to_field` as written; a missing field goes to `set_value` as
      written. */
  function AddToFieldAsWritten(data: seq<Field>, key: Key, v: Instance, createIfNecessary: bool): Outcome
  {
    match FieldAddress(key)
    case Err(e) => Outcome(data, Some(e))
    case Ok((inner, name)) =>
      match FieldExistsAsWritten(Node(data), Node(data), inner, name)
      case Err(e) => Outcome(data, Some(e))
      case Ok(true) =>
        (match WriteAsWritten(data, inner, Append(name, v))
         case Err(e) => Outcome(data, Some(e))
         case Ok(u) => Outcome(u, None))
      case Ok(false) =>
        if !createIfNecessary then Outcome(data, Some(FieldNotFound))
        else SetValueAsWritten(data, FirstInstanceKey(key), v)
  }

  /** `remove_value` as written. */
  function RemoveValueAsWritten(data: seq<Field>, key: Key): Outcome
  {
    match ValueAddress(key)
    case Err(e) => Outcome(data, Some(e))
    case Ok(p) =>
      match ValueExistsAsWritten(Node(data), Node(data), p)
      case Err(e) => Outcome(data, Some(e))
      case Ok(false) => Outcome(data, None)
      case Ok(true) =>
        match WriteAsWritten(data, Init(p), DeleteInstance(Last(p).name, Last(p).index))
        case Err(e) => Outcome(data, Some(e))
        case Ok(u) => Outcome(u, None)
  }

  /** `remove_field` as written. */
  function RemoveFieldAsWritten(data: seq<Field>, key: Key): Outcome
  {
    match FieldAddress(key)
    case Err(e) => Outcome(data, Some(e))
    case Ok((inner, name)) =>
      match FieldExistsAsWritten(Node(data), Node(data), inner, name)
      case Err(e) => Outcome(data, Some(e))
      case Ok(false) => Outcome(data, None)
      case Ok(true) =>
        match WriteAsWritten(data, inner, DeleteList(name))
        case Err(e) => Outcome(data, Some(e))
        case Ok(u) => Outcome(u, None)
  }

  // ---------------------------------------------------------------------
  // What the restart does to `{"a": [None], "b": [1]}`
  // ---------------------------------------------------------------------

  /** The record with a `None` under `a` and a value under `b`. */
  function Sample(): seq<Field>
  {
    [Field("a", [Null]), Field("b", [Leaf(Int(1))])]
  }

  /** `set_value("a0.b0", v)` (given as any key that addresses `a0.b0`)
      as written finds top-level `b0` through the
      restart and overwrites it; `a` keeps its `None`. The corrected
      `set_value` leaves `b0`, a path apart from the address, reading 1. */
  lemma SetValueOverwritesTop(key: Key, v: Instance)
    requires ValueAddress(key) == Ok([Step("a", 0), Step("b", 0)])
    ensures SetValueAsWritten(Sample(), key, v) == Outcome([Field("a", [Null]), Field("b", [v])], None)
    ensures Follow(Node(SetValueOf(Sample(), key, v).data), [Step("b", 0)]) == Ok(Leaf(Int(1)))
  {
    var p := [Step("a", 0), Step("b", 0)];
    SampleEntries();
    RestartFindsTop();
    assert Init(p) == [Step("a", 0)] && Last(p) == Step("b", 0);
    assert [Leaf(Int(1))][0 := v] == [v];
    assert Assign(Sample(), "b", [v]) == [Field("a", [Null]), Field("b", [v])];
    RestartEditsTop(SetInstance("b", 0, v));
    assert Diverges([Step("b", 0)], p);
    RecordLaws.SetValueKeepsOthers(Sample(), key, v, [Step("b", 0)]);
  }

  /** `set_field("a0.b", value)` as written replaces the whole top-level
      field `b`. The corrected `set_field` creates `b` under `a0` and leaves
      top-level `b0` reading 1. */
  lemma SetFieldOverwritesTop(key: Key, value: Instance)
    requires FieldAddress(key) == Ok(([Step("a", 0)], "b")) && value.List?
    ensures SetFieldAsWritten(Sample(), key, value) == Outcome([Field("a", [Null]), Field("b", value.items)], None)
    ensures Follow(Node(SetFieldOf(Sample(), key, value).data), [Step("b", 0)]) == Ok(Leaf(Int(1)))
  {
    assert SetFieldAsWritten(Sample(), key, value) == Outcome([Field("a", [Null]), Field("b", value.items)], None) by {
      SampleEntries();
      RestartFindsTop();
      assert Assign(Sample(), "b", value.items) == [Field("a", [Null]), Field("b", value.items)];
      RestartEditsTop(SetList("b", value.items));
    }
    assert Follow(Node(SetFieldOf(Sample(), key, value).data), [Step("b", 0)]) == Ok(Leaf(Int(1))) by {
      SampleEntries();
      assert Diverges([Step("b", 0)], [Step("a", 0)]);
      RecordLaws.SetFieldKeepsOthers(Sample(), key, value, [Step("b", 0)]);
    }
  }

  /** `add_to_field("a0.b", v)` as written appends to the top-level field
      `b`. The corrected `add_to_field` leaves top-level `b0` reading 1. */
  lemma AddToFieldAppendsTop(key: Key, v: Instance, createIfNecessary: bool)
    requires FieldAddress(key) == Ok(([Step("a", 0)], "b"))
    ensures AddToFieldAsWritten(Sample(), key, v, createIfNecessary) == Outcome([Field("a", [Null]), Field("b", [Leaf(Int(1)), v])], None)
    ensures Follow(Node(AddToFieldOf(Sample(), key, v, createIfNecessary).data), [Step("b", 0)]) == Ok(Leaf(Int(1)))
  {
    var top := [Field("a", [Null]), Field("b", [Leaf(Int(1)), v])];
    assert AddToFieldAsWritten(Sample(), key, v, createIfNecessary) == Outcome(top, None) by {
      SampleEntries();
      RestartFindsTop();
      assert [Leaf(Int(1))] + [v] == [Leaf(Int(1)), v];
      assert Assign(Sample(), "b", [Leaf(Int(1)), v]) == top;
      RestartEditsTop(Append("b", v));
      AddToFieldFound(Sample(), key, v, createIfNecessary);
    }
    assert Follow(Node(AddToFieldOf(Sample(), key, v, createIfNecessary).data), [Step("b", 0)]) == Ok(Leaf(Int(1))) by {
      SampleEntries();
      assert Diverges([Step("b", 0)], [Step("a", 0)]);
      RecordLaws.AddToFieldKeepsOthers(Sample(), key, v, createIfNecessary, [Step("b", 0)]);
    }
  }

  /** `remove_value("a0.b0")` as written deletes top-level `b0`. The
      corrected `remove_value` finds nothing under the `None` and changes
      nothing. */
  lemma RemoveValueDeletesTop(key: Key)
    requires ValueAddress(key) == Ok([Step("a", 0), Step("b", 0)])
    ensures RemoveValueAsWritten(Sample(), key) == Outcome([Field("a", [Null]), Field("b", [])], None)
    ensures RemoveValueOf(Sample(), key) == Outcome(Sample(), None)
  {
    var p := [Step("a", 0), Step("b", 0)];
    SampleEntries();
    SampleTests();
    RestartFindsTop();
    assert Init(p) == [Step("a", 0)] && Last(p) == Step("b", 0);
    assert [Leaf(Int(1))][..0] + [Leaf(Int(1))][1..] == [];
    assert Assign(Sample(), "b", []) == [Field("a", [Null]), Field("b", [])];
    RestartEditsTop(DeleteInstance("b", 0));
  }

  /** `remove_field("a0.b")` as written deletes the whole top-level field
      `b`. The corrected `remove_field` finds nothing under the `None` and
      changes nothing. */
  lemma RemoveFieldDeletesTop(key: Key)
    requires FieldAddress(key) == Ok(([Step("a", 0)], "b"))
    ensures RemoveFieldAsWritten(Sample(), key) == Outcome([Field("a", [Null])], None)
    ensures RemoveFieldOf(Sample(), key) == Outcome(Sample(), None)
  {
    assert RemoveFieldAsWritten(Sample(), key) == Outcome([Field("a", [Null])], None) by {
      SampleEntries();
      RestartFindsTop();
      assert Delete(Sample(), "b") == [Field("a", [Null])];
      RestartEditsTop(DeleteList("b"));
    }
    assert RemoveFieldOf(Sample(), key) == Outcome(Sample(), None) by {
      SampleTests();
    }
  }

  /** Under the sample's `None` the walk restarts at the top: a writer
      with inner steps `a0` edits the top-level dict. */
  lemma RestartEditsTop(e: Edit)
    requires ApplyEdit(Node(Sample()), e).Ok?
    ensures WriteAsWritten(Sample(), [Step("a", 0)], e) == Ok(ApplyEdit(Node(Sample()), e).value.fields)
  {
    var root := Node(Sample());
    assert Lookup(Sample(), "a") == Some([Null]);
    assert EditAtAsWritten(root, Null, [], e) == Ok((true, ApplyEdit(root, e).value));
  }

  /** And the tests as written find top-level `b` under `a0`. */
  lemma RestartFindsTop()
    ensures ValueExistsAsWritten(Node(Sample()), Node(Sample()), [Step("a", 0), Step("b", 0)]) == Ok(true)
    ensures FieldExistsAsWritten(Node(Sample()), Node(Sample()), [Step("a", 0)], "b") == Ok(true)
  {
    var root := Node(Sample());
    SampleEntries();
    assert [Step("a", 0), Step("b", 0)][1..] == [Step("b", 0)] && [Step("a", 0)][1..] == [];
    assert ValueExistsAsWritten(root, Null, [Step("b", 0)]) == Ok(true);
    assert FieldExistsAsWritten(root, Null, [], "b") == Ok(true);
  }

  /** Where the field test as written answers true, `add_to_field` as
      written appends, whatever `createIfNecessary` says. */
  lemma AddToFieldFound(data: seq<Field>, key: Key, v: Instance, createIfNecessary: bool)
    requires FieldAddress(key).Ok?
    requires FieldExistsAsWritten(Node(data), Node(data), FieldAddress(key).value.0, FieldAddress(key).value.1) == Ok(true)
    requires WriteAsWritten(data, FieldAddress(key).value.0, Append(FieldAddress(key).value.1, v)).Ok?
    ensures AddToFieldAsWritten(data, key, v, createIfNecessary) ==
              Outcome(WriteAsWritten(data, FieldAddress(key).value.0, Append(FieldAddress(key).value.1, v)).value, None)
  {
  }

  /** The sample's dict entries. */
  lemma SampleEntries()
    ensures Lookup(Sample(), "a") == Some([Null]) && Lookup(Sample(), "b") == Some([Leaf(Int(1))])
    ensures Follow(Node(Sample()), [Step("b", 0)]) == Ok(Leaf(Int(1)))
  {
    assert Lookup(Sample(), "a") == Some([Null]);
    assert Lookup(Sample(), "b") == Some([Leaf(Int(1))]);
    assert Follow(Leaf(Int(1)), []) == Ok(Leaf(Int(1)));
  }

  /** The corrected tests find nothing under the sample's `None`. */
  lemma SampleTests()
    ensures ValueExistsAt(Node(Sample()), [Step("a", 0), Step("b", 0)]) == Ok(false)
    ensures FieldExistsAt(Node(Sample()), [Step("a", 0)], "b") == Ok(false)
  {
    var root := Node(Sample());
    assert Lookup(Sample(), "a") == Some([Null]);
    assert [Step("a", 0), Step("b", 0)][1..] == [Step("b", 0)] && [Step("a", 0)][1..] == [];
  }
}
