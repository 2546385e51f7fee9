/** What the public operations promise: round trips, what changes and what
    does not, absence handled without raising, and no partial update left
    behind by an operation that raises. */
module RecordLaws {
  import opened Results
  import opened Tree
  import opened Address
  import opened Traversal
  import opened Updates
  import opened Vivification
  import opened Record

  lemma ValueSegmentsSplit(p: seq<Step>)
    requires |p| >= 1
    ensures ValueSegments(p) == Segs(Init(p), Segment(Last(p).name, Some(Last(p).index)))
  {
    assert ValueSegments(p) == ValueSegments(Init(p)) + [Segment(Last(p).name, Some(Last(p).index))];
  }

  // ---------------------------------------------------------------------
  // set_value
  // ---------------------------------------------------------------------

  /** After `set_value` succeeds the value reads back and is reported to exist. */
  lemma SetValueRoundTrip(data: seq<Field>, key: Key, v: Instance)
    ensures SetValueOf(data, key, v).error.None? ==>
              && GetValueOf(SetValueOf(data, key, v).data, key) == Ok(v)
              && ValueExistsOf(SetValueOf(data, key, v).data, key) == Ok(true)
  {
    var o := SetValueOf(data, key, v);
    if o.error.None? {
      var p := ValueAddress(key).value;
      var ex := ValueExistsAt(Node(data), p).value;
      var t := if ex then Node(data) else Vivify(Node(data), ValueSegments(p)).0;
      SetValueReadBack(t, p, v);
      var u := SetValueAt(t, p, v).value;
      assert o.data == u.fields && Node(u.fields) == u;
      ValueExistsMatchesGet(u, p);
    }
  }

  /** Setting a value that exists does no vivification, cannot fail, and
      changes nothing but that one instance. */
  lemma SetValueExisting(data: seq<Field>, key: Key, v: Instance, q: seq<Step>)
    requires ValueExistsOf(data, key) == Ok(true)
    ensures SetValueOf(data, key, v).error.None?
    ensures ValueAddress(key).Ok? && SetValueAt(Node(data), ValueAddress(key).value, v).Ok?
    ensures SetValueOf(data, key, v).data == SetValueAt(Node(data), ValueAddress(key).value, v).value.fields
    ensures Diverges(q, ValueAddress(key).value) ==>
              Follow(Node(SetValueOf(data, key, v).data), q) == Follow(Node(data), q)
  {
    var p := ValueAddress(key).value;
    ValueExistsMatchesGet(Node(data), p);
    SetValueReadBack(Node(data), p, v);
    var u := SetValueAt(Node(data), p, v).value;
    assert Node(u.fields) == u;
    if Diverges(q, p) {
      SetValueFrame(Node(data), p, v, q);
    }
  }

  /** `set_value` raises only before it changes anything: the discipline
      and the existence test come first, vivification is all or nothing,
      and a vivification that changed the tree leaves an address the
      assignment cannot miss. */
  lemma SetValueAtomic(data: seq<Field>, key: Key, v: Instance)
    ensures SetValueOf(data, key, v).error.Some? ==> SetValueOf(data, key, v).data == data
  {
    var o := SetValueOf(data, key, v);
    match ValueAddress(key) {
      case Err(e) =>
        assert o == Outcome(data, Some(e));
      case Ok(p) =>
        match ValueExistsAt(Node(data), p) {
          case Err(e) =>
            assert o == Outcome(data, Some(e));
          case Ok(true) =>
            ValueExistsMatchesGet(Node(data), p);
            SetValueReadBack(Node(data), p, v);
            assert o.error.None?;
          case Ok(false) =>
            var last := Segment(Last(p).name, Some(Last(p).index));
            ValueSegmentsSplit(p);
            VivifyAtomic(Node(data), Init(p), last);
            var r := Vivify(Node(data), ValueSegments(p));
            if r.1.None? {
              VivifyChanges(Node(data), Init(p), last);
              SetValueReadBack(r.0, p, v);
              FollowLast(r.0, p);
              assert o.error.Some? ==> r.0 == Node(data);
            } else {
              assert o == Outcome(r.0.fields, r.1);
            }
        }
    }
  }

  /** Vivification skips padding at index 0, so index 0 of a field that
      exists with no instances raises IndexError. */
  lemma SetValueEmptyFieldQuirk(v: Instance)
    ensures SetValueOf([Field("a", [])], Parts(["a0"]), v) == Outcome([Field("a", [])], Some(IndexError))
  {
    var data := [Field("a", [])];
    var p := [Step("a", 0)];
    assert ParseSegment("a0") == Segment("a", Some(0)) by {
      ParseFormat("a", 0);
      assert FormatSegment("a", 0) == "a0";
    }
    assert EndsInDigit("a0") && ReqsIndices(["a0"]).None?;
    assert ValuePath(["a0"]) == p;
    assert ValueAddress(Parts(["a0"])) == Ok(p);
    assert Lookup(data, "a") == Some([]);
    assert ValueExistsAt(Node(data), p) == Ok(false);
    assert Grown(data, "a", Some(0)) == [];
    AssignSame(data, "a");
    assert Vivify(Node(data), ValueSegments(p)) == (Node(data), None);
  }

  // ---------------------------------------------------------------------
  // set_field
  // ---------------------------------------------------------------------

  /** After `set_field` succeeds the field holds exactly the list given. */
  lemma SetFieldRoundTrip(data: seq<Field>, key: Key, value: Instance)
    ensures SetFieldOf(data, key, value).error.None? ==>
              value.List? && GetFieldOf(SetFieldOf(data, key, value).data, key) == Ok(value.items)
  {
    var o := SetFieldOf(data, key, value);
    if o.error.None? {
      var (inner, name) := FieldAddress(key).value;
      var ex := FieldExistsAt(Node(data), inner, name).value;
      var t := if ex then Node(data) else Vivify(Node(data), FieldSegments(inner, name)).0;
      SetFieldEffect(t, inner, name, value.items);
      var u := SetFieldAt(t, inner, name, value.items).value;
      assert o.data == u.fields && Node(u.fields) == u;
    }
  }

  /** `set_field` rejects anything but a list, and raises only before it
      changes anything. */
  lemma SetFieldAtomic(data: seq<Field>, key: Key, value: Instance)
    ensures !value.List? ==> SetFieldOf(data, key, value).error.Some?
    ensures FieldAddress(key).Ok? && !value.List? ==> SetFieldOf(data, key, value) == Outcome(data, Some(NotAList))
    ensures SetFieldOf(data, key, value).error.Some? ==> SetFieldOf(data, key, value).data == data
  {
    match FieldAddress(key)
    case Err(_) =>
    case Ok((inner, name)) =>
      if value.List? {
        match FieldExistsAt(Node(data), inner, name)
        case Err(_) =>
        case Ok(ex) =>
          if !ex {
            var last := Segment(name, None);
            assert FieldSegments(inner, name) == Segs(inner, Segment(name, None));
            VivifyAtomic(Node(data), inner, last);
            var r := Vivify(Node(data), FieldSegments(inner, name));
            if r.1.None? {
              VivifyChanges(Node(data), inner, last);
              SetFieldEffect(r.0, inner, name, value.items);
            }
          }
      }
  }

  // ---------------------------------------------------------------------
  // add_to_field
  // ---------------------------------------------------------------------

  /** On an existing field, `add_to_field` appends the value at the end. */
  lemma AddToFieldAppends(data: seq<Field>, key: Key, v: Instance, createIfNecessary: bool)
    requires GetFieldOf(data, key).Ok?
    ensures AddToFieldOf(data, key, v, createIfNecessary).error.None?
    ensures GetFieldOf(AddToFieldOf(data, key, v, createIfNecessary).data, key) == Ok(GetFieldOf(data, key).value + [v])
  {
    var (inner, name) := FieldAddress(key).value;
    FieldExistsMatchesGet(Node(data), inner, name);
    AddToFieldEffect(Node(data), inner, name, v);
    var u := AddToFieldAt(Node(data), inner, name, v).value;
    assert Node(u.fields) == u;
  }

  /** Where the field test answers false, the value test for the field's
      instance 0 answers false too. */
  lemma {:induction false} ValueExistsFromField(start: Instance, inner: seq<Step>, name: string)
    requires FieldExistsAt(start, inner, name) == Ok(false)
    ensures ValueExistsAt(start, inner + [Step(name, 0)]) == Ok(false)
  {
    var p := inner + [Step(name, 0)];
    if inner != [] {
      assert p[0] == inner[0] && p[1..] == inner[1..] + [Step(name, 0)];
      var xs := Subscript(start, inner[0].name);
      if Contains(start, inner[0].name) == Ok(true) && inner[0].index <= |xs.value| - 1 {
        ValueExistsFromField(xs.value[inner[0].index], inner[1..], name);
      }
    }
  }

  /** The key `add_to_field` builds for a missing field is a value address
      for instance 0 of that field. */
  lemma FirstInstanceAddress(key: Key)
    requires FieldAddress(key).Ok?
    ensures ValueAddress(FirstInstanceKey(key)) ==
              Ok(FieldAddress(key).value.0 + [Step(FieldAddress(key).value.1, 0)])
  {
    var ks := KeyList(key);
    var n := |ks|;
    var inner := ks[..n - 1];
    var name := ks[n - 1];
    assert FieldAddress(key).value == (ValuePath(inner), name);
    FirstInstanceSegments(inner, name);
  }

  /** Appending "0" to the unindexed last segment of a field address gives
      the value address of the field's instance 0. */
  lemma FirstInstanceSegments(inner: seq<string>, name: string)
    requires ReqsIndices(inner).None? && !EndsInDigit(name)
    ensures ReqsIndices(inner + [name + "0"]).None?
    ensures ValuePath(inner + [name + "0"]) == ValuePath(inner) + [Step(name, 0)]
  {
    var last := name + "0";
    assert EndsInDigit(last) && StepOf(last) == Step(name, 0) by {
      assert FormatSegment(name, 0) == last;
      ParseFormat(name, 0);
    }
    var ks := inner + [last];
    assert ReqsIndices(ks).None? && ValuePath(ks) == ValuePath(inner) + [StepOf(last)] by {
      assert forall i :: 0 <= i < |ks| ==> ks[i] == if i < |inner| then inner[i] else last;
    }
  }

  /** On a missing field, `add_to_field` raises unless told to create it;
      then it is `set_value` at index 0 of the field. */
  lemma AddToFieldMissing(data: seq<Field>, key: Key, v: Instance, createIfNecessary: bool)
    requires FieldExistsOf(data, key) == Ok(false)
    ensures !createIfNecessary ==> AddToFieldOf(data, key, v, createIfNecessary) == Outcome(data, Some(FieldNotFound))
    ensures createIfNecessary ==>
              && ValueAddress(FirstInstanceKey(key)) == Ok(FieldAddress(key).value.0 + [Step(FieldAddress(key).value.1, 0)])
              && AddToFieldOf(data, key, v, createIfNecessary) == SetValueOf(data, FirstInstanceKey(key), v)
  {
    if createIfNecessary {
      FirstInstanceAddress(key);
    }
  }

  /** Creating a missing field through `add_to_field` leaves it holding
      just the value. */
  lemma AddToFieldCreates(data: seq<Field>, key: Key, v: Instance)
    requires FieldExistsOf(data, key) == Ok(false)
    requires AddToFieldOf(data, key, v, true).error.None?
    ensures GetFieldOf(AddToFieldOf(data, key, v, true).data, key) == Ok([v])
  {
    var (inner, name) := FieldAddress(key).value;
    var p := inner + [Step(name, 0)];
    AddToFieldMissing(data, key, v, true);
    ValueExistsFromField(Node(data), inner, name);
    SetValueVivified(data, FirstInstanceKey(key), p, v);
    FirstInstanceVivified(Node(data), inner, name, v);
  }

  /** Vivifying instance 0 of a field the test found missing, then
      assigning it, leaves the field holding just the value. */
  lemma FirstInstanceVivified(start: Instance, inner: seq<Step>, name: string, v: Instance)
    requires FieldExistsAt(start, inner, name) == Ok(false)
    requires Vivify(start, ValueSegments(inner + [Step(name, 0)])).1.None?
    requires SetValueAt(Vivify(start, ValueSegments(inner + [Step(name, 0)])).0, inner + [Step(name, 0)], v).Ok?
    ensures GetFieldAt(SetValueAt(Vivify(start, ValueSegments(inner + [Step(name, 0)])).0, inner + [Step(name, 0)], v).value, inner, name) == Ok([v])
  {
    var p := inner + [Step(name, 0)];
    assert Init(p) == inner && Last(p) == Step(name, 0);
    ValueSegmentsSplit(p);
    var t := Vivify(start, ValueSegments(p)).0;
    VivifyAbsent(start, inner, name);
    SetValueReadBack(t, p, v);
    assert [Null][0 := v] == [v];
  }

  /** A `set_value` that succeeds where the value was missing is the
      assignment into the vivified tree. */
  lemma SetValueVivified(data: seq<Field>, key: Key, p: seq<Step>, v: Instance)
    requires ValueAddress(key) == Ok(p) && ValueExistsAt(Node(data), p) == Ok(false)
    requires SetValueOf(data, key, v).error.None?
    ensures Vivify(Node(data), ValueSegments(p)).1.None?
    ensures SetValueAt(Vivify(Node(data), ValueSegments(p)).0, p, v).Ok?
    ensures Node(SetValueOf(data, key, v).data) == SetValueAt(Vivify(Node(data), ValueSegments(p)).0, p, v).value
  {
    var t := Vivify(Node(data), ValueSegments(p)).0;
    var u := SetValueAt(t, p, v);
    assert u.Ok? ==> Node(u.value.fields) == u.value;
  }

  /** `add_to_field` raises only before it changes anything. */
  lemma AddToFieldAtomic(data: seq<Field>, key: Key, v: Instance, createIfNecessary: bool)
    ensures AddToFieldOf(data, key, v, createIfNecessary).error.Some? ==>
              AddToFieldOf(data, key, v, createIfNecessary).data == data
  {
    var o := AddToFieldOf(data, key, v, createIfNecessary);
    match FieldAddress(key) {
      case Err(e) =>
        assert o == Outcome(data, Some(e));
      case Ok((inner, name)) =>
        match FieldExistsAt(Node(data), inner, name) {
          case Err(e) =>
            assert o == Outcome(data, Some(e));
          case Ok(true) =>
            assert o.error.Some? ==> o == Outcome(data, o.error);
          case Ok(false) =>
            if createIfNecessary {
              var k := FirstInstanceKey(key);
              assert o == SetValueOf(data, k, v);
              SetValueAtomic(data, k, v);
            } else {
              assert o == Outcome(data, Some(FieldNotFound));
            }
        }
    }
  }

  // ---------------------------------------------------------------------
  // remove_value, remove_field
  // ---------------------------------------------------------------------

  /** `remove_value` of an absent value does nothing and does not raise;
      one that raises changes nothing. */
  lemma RemoveValueEffect(data: seq<Field>, key: Key)
    ensures ValueExistsOf(data, key) == Ok(false) ==> RemoveValueOf(data, key) == Outcome(data, None)
    ensures RemoveValueOf(data, key).error.Some? ==> RemoveValueOf(data, key).data == data
  {
    RemoveValueCases(data, key);
    if ValueExistsOf(data, key) == Ok(true) {
      RemoveValueDeletes(data, ValueAddress(key).value);
    }
  }

  /** `remove_value` of a present value raises nothing and deletes exactly
      that instance from its field's list. */
  lemma RemoveValueRemoves(data: seq<Field>, key: Key)
    requires ValueExistsOf(data, key) == Ok(true)
    ensures RemoveValueOf(data, key).error.None?
    ensures var p := ValueAddress(key).value;
            GetFieldAt(Node(data), Init(p), Last(p).name).Ok?
    ensures var p := ValueAddress(key).value;
            var xs := GetFieldAt(Node(data), Init(p), Last(p).name).value;
            && Last(p).index < |xs|
            && GetFieldAt(Node(RemoveValueOf(data, key).data), Init(p), Last(p).name) ==
                 Ok(xs[..Last(p).index] + xs[Last(p).index + 1..])
  {
    RemoveValuePresent(data, key);
    RemoveValueDeletes(data, ValueAddress(key).value);
  }

  /** A present value is removed by the deletion helper. */
  lemma RemoveValuePresent(data: seq<Field>, key: Key)
    requires ValueExistsOf(data, key) == Ok(true)
    ensures ValueAddress(key).Ok? && |ValueAddress(key).value| >= 1
    ensures ValueExistsAt(Node(data), ValueAddress(key).value) == Ok(true)
    ensures DelValueAt(Node(data), ValueAddress(key).value).Ok?
    ensures RemoveValueOf(data, key) == Outcome(DelValueAt(Node(data), ValueAddress(key).value).value.fields, None)
  {
    RemoveValueCases(data, key);
    RemoveValueDeletes(data, ValueAddress(key).value);
  }

  /** `remove_value` asks whether the value exists and deletes it only if so. */
  lemma RemoveValueCases(data: seq<Field>, key: Key)
    ensures ValueExistsOf(data, key).Err? ==>
              RemoveValueOf(data, key) == Outcome(data, Some(ValueExistsOf(data, key).error))
    ensures ValueExistsOf(data, key) == Ok(false) ==> RemoveValueOf(data, key) == Outcome(data, None)
    ensures ValueExistsOf(data, key) == Ok(true) ==>
              && ValueAddress(key).Ok?
              && ValueExistsAt(Node(data), ValueAddress(key).value) == Ok(true)
              && RemoveValueOf(data, key) ==
                   match DelValueAt(Node(data), ValueAddress(key).value)
                   case Err(e) => Outcome(data, Some(e))
                   case Ok(u) => Outcome(u.fields, None)
  {
    match ValueAddress(key) {
      case Err(e) =>
      case Ok(p) => assert ValueExistsOf(data, key) == ValueExistsAt(Node(data), p);
    }
  }

  /** The deletion itself, once the value is known to exist. */
  lemma RemoveValueDeletes(data: seq<Field>, p: seq<Step>)
    requires |p| >= 1 && ValueExistsAt(Node(data), p) == Ok(true)
    ensures DelValueAt(Node(data), p).Ok?
    ensures GetFieldAt(Node(data), Init(p), Last(p).name).Ok?
    ensures var xs := GetFieldAt(Node(data), Init(p), Last(p).name).value;
            && Last(p).index < |xs|
            && GetFieldAt(Node(DelValueAt(Node(data), p).value.fields), Init(p), Last(p).name) ==
                 Ok(xs[..Last(p).index] + xs[Last(p).index + 1..])
  {
    ValueExistsMatchesGet(Node(data), p);
    DelValueEffect(Node(data), p);
    var u := DelValueAt(Node(data), p).value;
    assert Node(u.fields) == u;
  }

  /** After `remove_value`, later instances of the field move down by one;
      earlier ones, and every other field, stay where they were. */
  lemma RemoveValueShifts(data: seq<Field>, key: Key, j: nat, rest: seq<Step>, q: seq<Step>)
    requires ValueExistsOf(data, key) == Ok(true)
    ensures var p := ValueAddress(key).value;
            var after := Node(RemoveValueOf(data, key).data);
            && Follow(after, Init(p) + [Step(Last(p).name, j)] + rest) ==
                 Follow(Node(data), Init(p) + [Step(Last(p).name, if j < Last(p).index then j else j + 1)] + rest)
            && (Outside(q, Init(p), Last(p).name) ==> Follow(after, q) == Follow(Node(data), q))
  {
    var p := ValueAddress(key).value;
    ValueExistsMatchesGet(Node(data), p);
    DelValueEffect(Node(data), p);
    var u := DelValueAt(Node(data), p).value;
    assert Node(u.fields) == u;
    DelValueShifts(Node(data), p, j, rest);
    if Outside(q, Init(p), Last(p).name) {
      EditAtLeavesOthers(Node(data), Init(p), DeleteInstance(Last(p).name, Last(p).index), q);
    }
  }

  /** `remove_field` of an absent field does nothing and does not raise,
      and it raises only before it changes anything. */
  lemma RemoveFieldAbsent(data: seq<Field>, key: Key)
    ensures FieldExistsOf(data, key) == Ok(false) ==> RemoveFieldOf(data, key) == Outcome(data, None)
    ensures RemoveFieldOf(data, key).error.Some? ==> RemoveFieldOf(data, key).data == data
  {
    var o := RemoveFieldOf(data, key);
    if FieldAddress(key).Ok? {
      var (inner, name) := FieldAddress(key).value;
      assert FieldExistsOf(data, key) == FieldExistsAt(Node(data), inner, name);
      match FieldExistsAt(Node(data), inner, name) {
        case Err(e) => assert o == Outcome(data, Some(e));
        case Ok(false) => assert o == Outcome(data, None);
        case Ok(true) =>
          assert o.error.Some? ==> o == Outcome(data, o.error);
      }
    }
  }

  /** A missing inner field or an inner index past the end is absence, not
      an error: the field test answers false, `remove_field` does nothing,
      and `add_to_field` without `create_if_necessary` raises only its own
      ValueError. */
  lemma MissingInnerIsAbsent(data: seq<Field>, key: Key, v: Instance)
    requires FieldAddress(key).Ok?
    requires Follow(Node(data), FieldAddress(key).value.0).Err?
    requires Follow(Node(data), FieldAddress(key).value.0).error != TypeError
    ensures FieldExistsOf(data, key) == Ok(false)
    ensures RemoveFieldOf(data, key) == Outcome(data, None)
    ensures AddToFieldOf(data, key, v, false) == Outcome(data, Some(FieldNotFound))
  {
    var (inner, name) := FieldAddress(key).value;
    FieldExistsMatchesGet(Node(data), inner, name);
    RemoveFieldAbsent(data, key);
    AddToFieldMissing(data, key, v, false);
  }

  /** `remove_field` deletes a readable field, and every other field stays. */
  lemma RemoveFieldDeletes(data: seq<Field>, key: Key, q: seq<Step>)
    requires WellFormed(Node(data)) && GetFieldOf(data, key).Ok?
    ensures RemoveFieldOf(data, key).error.None?
    ensures FieldExistsOf(RemoveFieldOf(data, key).data, key) == Ok(false)
    ensures GetFieldOf(RemoveFieldOf(data, key).data, key) == Err(KeyError)
    ensures Outside(q, FieldAddress(key).value.0, FieldAddress(key).value.1) ==>
              Follow(Node(RemoveFieldOf(data, key).data), q) == Follow(Node(data), q)
  {
    var (inner, name) := FieldAddress(key).value;
    FieldExistsMatchesGet(Node(data), inner, name);
    DelFieldEffect(Node(data), inner, name);
    var u := DelFieldAt(Node(data), inner, name).value;
    assert RemoveFieldOf(data, key) == Outcome(u.fields, None);
    assert Node(u.fields) == u;
    if Outside(q, inner, name) {
      EditAtLeavesOthers(Node(data), inner, DeleteList(name), q);
    }
  }

  /** The field test passes through a string leaf that contains the name,
      so `remove_field` goes on to delete from the string and raises
      TypeError, changing nothing. */
  lemma RemoveFieldThroughString()
    ensures var data := [Field("a", [Leaf(Str("xyz"))])];
            RemoveFieldOf(data, Parts(["a0", "x"])) == Outcome(data, Some(TypeError))
  {
    var data := [Field("a", [Leaf(Str("xyz"))])];
    assert ParseSegment("a0") == Segment("a", Some(0)) by {
      ParseFormat("a", 0);
      assert FormatSegment("a", 0) == "a0";
    }
    assert !EndsInDigit("x") && EndsInDigit("a0");
    assert ["a0", "x"][..1] == ["a0"] && ReqsIndices(["a0"]).None?;
    assert ValuePath(["a0"]) == [Step("a", 0)];
    assert FieldAddress(Parts(["a0", "x"])) == Ok(([Step("a", 0)], "x"));
    FieldExistsThroughString();
    assert Lookup(data, "a") == Some([Leaf(Str("xyz"))]);
    assert EditAt(Leaf(Str("xyz")), [], DeleteList("x")) == Err(TypeError);
    assert DelFieldAt(Node(data), [Step("a", 0)], "x") == Err(TypeError);
  }

  // ---------------------------------------------------------------------
  // Writing through a `None`
  // ---------------------------------------------------------------------

  /** A `None` already on the path holds nothing, so `set_value` vivifies
      through it: on `{"a": [None]}`, `set_value("a0.b0", v)` replaces the
      `None` by `{}`, creates `b` and gives `{"a": [{"b": [v]}]}`. */
  lemma SetValueThroughNone(key: Key, v: Instance)
    requires ValueAddress(key) == Ok([Step("a", 0), Step("b", 0)])
    ensures var o := SetValueOf([Field("a", [Null])], key, v);
            && o == Outcome([Field("a", [Node([Field("b", [v])])])], None)
            && GetValueOf(o.data, key) == Ok(v)
  {
    var data := [Field("a", [Null])];
    var p := [Step("a", 0), Step("b", 0)];
    assert ValueExistsAt(Node(data), p) == Ok(false) by {
      assert Lookup(data, "a") == Some([Null]);
      NoneHoldsNothing(Node(data), [Step("a", 0)], [Step("b", 0)], "b");
      assert [Step("a", 0)] + [Step("b", 0)] == p;
    }
    assert SetValueOf(data, key, v) == Outcome([Field("a", [Node([Field("b", [v])])])], None) by {
      VivifyThroughNone();
      SetThroughNone(v);
    }
    SetValueRoundTrip(data, key, v);
  }

  /** Likewise `set_field("a0.b", value)` on `{"a": [None]}` gives
      `{"a": [{"b": value}]}`. */
  lemma SetFieldThroughNone(key: Key, value: Instance)
    requires FieldAddress(key) == Ok(([Step("a", 0)], "b")) && value.List?
    ensures SetFieldOf([Field("a", [Null])], key, value) == Outcome([Field("a", [Node([Field("b", value.items)])])], None)
  {
    var data := [Field("a", [Null])];
    assert FieldExistsAt(Node(data), [Step("a", 0)], "b") == Ok(false) by {
      assert Lookup(data, "a") == Some([Null]);
      assert [Step("a", 0)][1..] == [];
    }
    VivifyFieldThroughNone();
    SetListThroughNone(value.items);
  }

  /** And `add_to_field("a0.b", v, True)` on `{"a": [None]}` creates the
      field under the `None`, giving `{"a": [{"b": [v]}]}`. */
  lemma AddToFieldThroughNone(key: Key, v: Instance)
    requires FieldAddress(key) == Ok(([Step("a", 0)], "b"))
    ensures AddToFieldOf([Field("a", [Null])], key, v, true) == Outcome([Field("a", [Node([Field("b", [v])])])], None)
  {
    AddToFieldCreatesUnderNone(key, v);
    SetValueThroughNone(FirstInstanceKey(key), v);
  }

  /** On `{"a": [None]}` field `a0.b` is missing, so `add_to_field("a0.b",
      v, True)` is `set_value("a0.b0", v)`. */
  lemma AddToFieldCreatesUnderNone(key: Key, v: Instance)
    requires FieldAddress(key) == Ok(([Step("a", 0)], "b"))
    ensures ValueAddress(FirstInstanceKey(key)) == Ok([Step("a", 0), Step("b", 0)])
    ensures AddToFieldOf([Field("a", [Null])], key, v, true) == SetValueOf([Field("a", [Null])], FirstInstanceKey(key), v)
  {
    FieldAbsentUnderNone([Field("a", [Null])], key);
    AddToFieldMissing([Field("a", [Null])], key, v, true);
    assert [Step("a", 0)] + [Step("b", 0)] == [Step("a", 0), Step("b", 0)];
  }

  /** Field `a0.b` is missing from `{"a": [None]}`. */
  lemma FieldAbsentUnderNone(data: seq<Field>, key: Key)
    requires data == [Field("a", [Null])] && FieldAddress(key) == Ok(([Step("a", 0)], "b"))
    ensures FieldExistsOf(data, key) == Ok(false)
  {
    assert FieldExistsAt(Node(data), [Step("a", 0)], "b") == Ok(false) by {
      assert Lookup(data, "a") == Some([Null]);
      assert [Step("a", 0)][1..] == [] && FieldExistsAt(Null, [], "b") == Ok(false);
    }
  }

  /** Vivifying field `a0.b` in `{"a": [None]}` gives `{"a": [{"b": [None]}]}`. */
  lemma VivifyFieldThroughNone()
    ensures Vivify(Node([Field("a", [Null])]), FieldSegments([Step("a", 0)], "b"))
            == (Node([Field("a", [Node([Field("b", [Null])])])]), None)
  {
    var data := [Field("a", [Null])];
    var segs := FieldSegments([Step("a", 0)], "b");
    assert segs == [Segment("a", Some(0)), Segment("b", None)] && segs[1..] == [Segment("b", None)];
    assert Lookup(data, "a") == Some([Null]);
    assert Grown(data, "a", Some(0)) == [Null];
    var c := Node([Field("b", [Null])]);
    assert Vivify(Node([]), segs[1..]) == (c, None);
    assert Child(Null) == Node([]) && [Null][0 := c] == [c];
    assert Assign(data, "a", [c]) == [Field("a", [c])];
  }

  /** Then replacing field `a0.b` gives `{"a": [{"b": items}]}`. */
  lemma SetListThroughNone(items: seq<Instance>)
    ensures SetFieldAt(Node([Field("a", [Node([Field("b", [Null])])])]), [Step("a", 0)], "b", items)
            == Ok(Node([Field("a", [Node([Field("b", items)])])]))
  {
    var c := Node([Field("b", [Null])]);
    var c' := Node([Field("b", items)]);
    assert Assign(c.fields, "b", items) == c'.fields;
    assert EditAt(c, [], SetList("b", items)) == Ok(c');
    assert Lookup([Field("a", [c])], "a") == Some([c]);
    assert [Step("a", 0)][1..] == [];
    assert [c][0 := c'] == [c'] && Assign([Field("a", [c])], "a", [c']) == [Field("a", [c'])];
  }

  /** Vivifying `a0.b0` in `{"a": [None]}` gives `{"a": [{"b": [None]}]}`. */
  lemma VivifyThroughNone()
    ensures Vivify(Node([Field("a", [Null])]), ValueSegments([Step("a", 0), Step("b", 0)]))
            == (Node([Field("a", [Node([Field("b", [Null])])])]), None)
  {
    var data := [Field("a", [Null])];
    var segs := ValueSegments([Step("a", 0), Step("b", 0)]);
    assert segs == [Segment("a", Some(0)), Segment("b", Some(0))];
    assert segs[1..] == [Segment("b", Some(0))];
    assert Lookup(data, "a") == Some([Null]);
    assert Grown(data, "a", Some(0)) == [Null];
    assert Vivify(Node([]), segs[1..]) == (Node([Field("b", [Null])]), None);
    var c := Node([Field("b", [Null])]);
    assert Child(Null) == Node([]) && [Null][0 := c] == [c];
    assert Assign(data, "a", [c]) == [Field("a", [c])];
  }

  /** Then assigning `a0.b0` gives `{"a": [{"b": [v]}]}`. */
  lemma SetThroughNone(v: Instance)
    ensures SetValueAt(Node([Field("a", [Node([Field("b", [Null])])])]), [Step("a", 0), Step("b", 0)], v)
            == Ok(Node([Field("a", [Node([Field("b", [v])])])]))
  {
    var c := Node([Field("b", [Null])]);
    var c' := Node([Field("b", [v])]);
    var p := [Step("a", 0), Step("b", 0)];
    assert p[..1] == [Step("a", 0)] && p[..1][1..] == [];
    assert Lookup(c.fields, "b") == Some([Null]) && [Null][0 := v] == [v];
    assert Assign(c.fields, "b", [v]) == c'.fields;
    assert ApplyEdit(c, SetInstance("b", 0, v)) == Ok(c');
    assert EditAt(c, [], SetInstance("b", 0, v)) == Ok(c');
    assert Lookup([Field("a", [c])], "a") == Some([c]);
    assert [c][0 := c'] == [c'] && Assign([Field("a", [c])], "a", [c']) == [Field("a", [c'])];
  }

  // ---------------------------------------------------------------------
  // Paths a writer leaves alone
  // ---------------------------------------------------------------------

  /** `set_value` changes no value readable elsewhere: every path that
      leaves the address and could be read before reads the same after,
      whether the value existed, had to be vivified (through a `None`, or
      by padding), or the call raised. */
  lemma SetValueKeepsOthers(data: seq<Field>, key: Key, v: Instance, q: seq<Step>)
    requires ValueAddress(key).Ok? && Diverges(q, ValueAddress(key).value)
    requires Follow(Node(data), q).Ok?
    ensures Follow(Node(SetValueOf(data, key, v).data), q) == Follow(Node(data), q)
  {
    var p := ValueAddress(key).value;
    var o := SetValueOf(data, key, v);
    SetValueAtomic(data, key, v);
    if o.error.None? {
      if ValueExistsAt(Node(data), p) == Ok(true) {
        SetValueExisting(data, key, v, q);
      } else {
        SetValueVivified(data, key, p, v);
        var last := Segment(Last(p).name, Some(Last(p).index));
        ValueSegmentsSplit(p);
        DivergesApart(q, p);
        VivifyKeeps(Node(data), Init(p), last, q);
        SetValueFrame(Vivify(Node(data), ValueSegments(p)).0, p, v, q);
      }
    }
  }

  /** Leaving a value address is leaving it in vivification's sense. */
  lemma {:induction false} DivergesApart(q: seq<Step>, p: seq<Step>)
    requires |p| >= 1 && Diverges(q, p)
    ensures Apart(q, Init(p), Segment(Last(p).name, Some(Last(p).index)))
    decreases |p|
  {
    if |p| > 1 && q[0] == p[0] {
      DivergesApart(q[1..], p[1..]);
      assert Init(p)[1..] == Init(p[1..]) && Last(p[1..]) == Last(p);
    }
  }

  /** `set_field` changes no value readable outside the field it names,
      whether the field existed, had to be vivified, or the call raised. */
  lemma SetFieldKeepsOthers(data: seq<Field>, key: Key, value: Instance, q: seq<Step>)
    requires FieldAddress(key).Ok? && Outside(q, FieldAddress(key).value.0, FieldAddress(key).value.1)
    requires Follow(Node(data), q).Ok?
    ensures Follow(Node(SetFieldOf(data, key, value).data), q) == Follow(Node(data), q)
  {
    var (inner, name) := FieldAddress(key).value;
    var o := SetFieldOf(data, key, value);
    SetFieldAtomic(data, key, value);
    if o.error.None? {
      var ex := FieldExistsAt(Node(data), inner, name).value;
      var t := if ex then Node(data) else Vivify(Node(data), FieldSegments(inner, name)).0;
      if !ex {
        assert FieldSegments(inner, name) == Segs(inner, Segment(name, None));
        OutsideApart(q, inner, name);
        VivifyKeeps(Node(data), inner, Segment(name, None), q);
      }
      var u := SetFieldAt(t, inner, name, value.items).value;
      assert o.data == u.fields && Node(u.fields) == u;
      EditAtLeavesOthers(t, inner, SetList(name, value.items), q);
    }
  }

  /** Passing outside a field is leaving its address in vivification's sense. */
  lemma {:induction false} OutsideApart(q: seq<Step>, inner: seq<Step>, name: string)
    requires Outside(q, inner, name)
    ensures Apart(q, inner, Segment(name, None))
  {
    if inner != [] && q[0] == inner[0] {
      if !Diverges(q, inner) {
        assert q[1..][..|inner| - 1] == q[..|inner|][1..] && q[1..][|inner| - 1] == q[|inner|];
      }
      OutsideApart(q[1..], inner[1..], name);
    }
  }

  /** Passing outside a field leaves every instance address in it. */
  lemma {:induction false} OutsideDiverges(q: seq<Step>, inner: seq<Step>, name: string, j: nat)
    requires Outside(q, inner, name)
    ensures Diverges(q, inner + [Step(name, j)])
  {
    assert (inner + [Step(name, j)])[0] == if inner == [] then Step(name, j) else inner[0];
    if inner != [] {
      assert (inner + [Step(name, j)])[1..] == inner[1..] + [Step(name, j)];
      if q[0] == inner[0] {
        if !Diverges(q, inner) {
          assert q[1..][..|inner| - 1] == q[..|inner|][1..] && q[1..][|inner| - 1] == q[|inner|];
        }
        OutsideDiverges(q[1..], inner[1..], name, j);
      }
    }
  }

  /** `add_to_field` changes no value readable outside the field it names,
      whether it appended, created the field, or raised. */
  lemma AddToFieldKeepsOthers(data: seq<Field>, key: Key, v: Instance, createIfNecessary: bool, q: seq<Step>)
    requires FieldAddress(key).Ok? && Outside(q, FieldAddress(key).value.0, FieldAddress(key).value.1)
    requires Follow(Node(data), q).Ok?
    ensures Follow(Node(AddToFieldOf(data, key, v, createIfNecessary).data), q) == Follow(Node(data), q)
  {
    var (inner, name) := FieldAddress(key).value;
    var o := AddToFieldOf(data, key, v, createIfNecessary);
    AddToFieldAtomic(data, key, v, createIfNecessary);
    if o.error.None? {
      if FieldExistsAt(Node(data), inner, name) == Ok(true) {
        var u := AddToFieldAt(Node(data), inner, name, v).value;
        assert o.data == u.fields && Node(u.fields) == u;
        EditAtLeavesOthers(Node(data), inner, Append(name, v), q);
      } else {
        AddToFieldMissing(data, key, v, createIfNecessary);
        OutsideDiverges(q, inner, name, 0);
        SetValueKeepsOthers(data, FirstInstanceKey(key), v, q);
      }
    }
  }

  /** `remove_value` changes nothing outside the instance list the address
      ends in: a missing value, an address through a `None`, or a raise
      leaves the record as it was. */
  lemma RemoveValueKeepsOthers(data: seq<Field>, key: Key, q: seq<Step>)
    requires ValueAddress(key).Ok?
    ensures var p := ValueAddress(key).value;
            Outside(q, Init(p), Last(p).name) ==>
              Follow(Node(RemoveValueOf(data, key).data), q) == Follow(Node(data), q)
  {
    RemoveValueEffect(data, key);
    if ValueExistsOf(data, key) == Ok(true) {
      RemoveValueShifts(data, key, 0, [], q);
    }
  }

  /** `remove_field` changes nothing outside the field it names: a missing
      field, an address through a `None`, or a raise leaves the record as
      it was. */
  lemma RemoveFieldKeepsOthers(data: seq<Field>, key: Key, q: seq<Step>)
    requires FieldAddress(key).Ok?
    ensures Outside(q, FieldAddress(key).value.0, FieldAddress(key).value.1) ==>
              Follow(Node(RemoveFieldOf(data, key).data), q) == Follow(Node(data), q)
  {
    var (inner, name) := FieldAddress(key).value;
    RemoveFieldAbsent(data, key);
    if FieldExistsAt(Node(data), inner, name) == Ok(true) && DelFieldAt(Node(data), inner, name).Ok? {
      var u := DelFieldAt(Node(data), inner, name).value;
      assert RemoveFieldOf(data, key) == Outcome(u.fields, None);
      assert Node(u.fields) == u;
      if Outside(q, inner, name) {
        EditAtLeavesOthers(Node(data), inner, DeleteList(name), q);
      }
    }
  }

  // ---------------------------------------------------------------------
  // Item access
  // ---------------------------------------------------------------------

  /** `record[key]` chooses by the last character of a string key but by
      the whole last segment of a list key, so the list key ["a0", "b1"]
      is treated as a field address and refused. */
  lemma GetItemListKeyQuirk(data: seq<Field>)
    ensures GetItemOf(data, Parts(["a0", "b1"])) == Err(MalformedAddress)
    ensures GetItemOf(data, Dotted("a0.b1")) == GetValueOf(data, Dotted("a0.b1"))
  {
    assert !Numeric("b1") by { assert !IsDigit("b1"[0]); }
    assert EndsInDigit("b1");
  }

  /** `record[key] = value` that raises nothing is read back by
      `record[key]`: a value key gives the value, a field key the list. */
  lemma SetItemRoundTrip(data: seq<Field>, key: Key, value: Instance)
    ensures SetItemOf(data, key, value).error.None? ==>
              GetItemOf(SetItemOf(data, key, value).data, key) == Ok(value)
  {
    SetValueRoundTrip(data, key, value);
    SetFieldRoundTrip(data, key, value);
  }

  /** `del record[key]` on a field key that `record[key]` reads raises
      nothing, and afterwards `record[key]` raises KeyError. */
  lemma DelItemRemovesField(data: seq<Field>, key: Key)
    requires WellFormed(Node(data)) && NamesValue(key) == Ok(false) && GetItemOf(data, key).Ok?
    ensures DelItemOf(data, key).error.None?
    ensures GetItemOf(DelItemOf(data, key).data, key) == Err(KeyError)
  {
    RemoveFieldDeletes(data, key, []);
  }

  // ---------------------------------------------------------------------
  // Every writer keeps the record a dict of dicts
  // ---------------------------------------------------------------------

  lemma SetValueWellFormed(data: seq<Field>, key: Key, v: Instance)
    requires WellFormed(Node(data)) && WellFormed(v)
    ensures WellFormed(Node(SetValueOf(data, key, v).data))
  {
    match ValueAddress(key)
    case Err(_) =>
    case Ok(p) =>
      match ValueExistsAt(Node(data), p)
      case Err(_) =>
      case Ok(ex) =>
        var r := if ex then (Node(data), None) else Vivify(Node(data), ValueSegments(p));
        if !ex {
          VivifyWellFormed(Node(data), ValueSegments(p));
        }
        assert Node(r.0.fields) == r.0;
        if r.1.None? && SetValueAt(r.0, p, v).Ok? {
          EditAtWellFormed(r.0, Init(p), SetInstance(Last(p).name, Last(p).index, v));
          assert Node(SetValueAt(r.0, p, v).value.fields) == SetValueAt(r.0, p, v).value;
        }
  }

  lemma SetFieldWellFormed(data: seq<Field>, key: Key, value: Instance)
    requires WellFormed(Node(data)) && WellFormed(value)
    ensures WellFormed(Node(SetFieldOf(data, key, value).data))
  {
    match FieldAddress(key)
    case Err(_) =>
    case Ok((inner, name)) =>
      match FieldExistsAt(Node(data), inner, name)
      case Err(_) =>
      case Ok(ex) =>
        if value.List? {
          var r := if ex then (Node(data), None) else Vivify(Node(data), FieldSegments(inner, name));
          if !ex {
            VivifyWellFormed(Node(data), FieldSegments(inner, name));
          }
          assert Node(r.0.fields) == r.0;
          if r.1.None? && SetFieldAt(r.0, inner, name, value.items).Ok? {
            EditAtWellFormed(r.0, inner, SetList(name, value.items));
            assert Node(SetFieldAt(r.0, inner, name, value.items).value.fields) == SetFieldAt(r.0, inner, name, value.items).value;
          }
        }
  }

  lemma AddToFieldWellFormed(data: seq<Field>, key: Key, v: Instance, createIfNecessary: bool)
    requires WellFormed(Node(data)) && WellFormed(v)
    ensures WellFormed(Node(AddToFieldOf(data, key, v, createIfNecessary).data))
  {
    match FieldAddress(key)
    case Err(_) =>
    case Ok((inner, name)) =>
      match FieldExistsAt(Node(data), inner, name)
      case Err(_) =>
      case Ok(ex) =>
        if ex {
          if AddToFieldAt(Node(data), inner, name, v).Ok? {
            EditAtWellFormed(Node(data), inner, Append(name, v));
            assert Node(AddToFieldAt(Node(data), inner, name, v).value.fields) == AddToFieldAt(Node(data), inner, name, v).value;
          }
        } else if createIfNecessary {
          SetValueWellFormed(data, FirstInstanceKey(key), v);
        }
  }

  lemma RemoveValueWellFormed(data: seq<Field>, key: Key)
    requires WellFormed(Node(data))
    ensures WellFormed(Node(RemoveValueOf(data, key).data))
  {
    var o := RemoveValueOf(data, key);
    if o.data != data {
      var p := ValueAddress(key).value;
      var r := DelValueAt(Node(data), p);
      assert r.Ok? && o.data == r.value.fields by {
        assert ValueAddress(key).Ok?;
      }
      EditAtWellFormed(Node(data), Init(p), DeleteInstance(Last(p).name, Last(p).index));
      assert Node(r.value.fields) == r.value;
    }
  }

  lemma RemoveFieldWellFormed(data: seq<Field>, key: Key)
    requires WellFormed(Node(data))
    ensures WellFormed(Node(RemoveFieldOf(data, key).data))
  {
    match FieldAddress(key)
    case Err(_) =>
    case Ok((inner, name)) =>
      var r := DelFieldAt(Node(data), inner, name);
      if r.Ok? {
        EditAtWellFormed(Node(data), inner, DeleteList(name));
        assert Node(r.value.fields) == r.value;
      }
  }
}
