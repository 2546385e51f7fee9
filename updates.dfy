/** What each writer helper does to the tree, stated through the readers:
    the one instance list it changes, and every other path left alone. */
module Updates {
  import opened Results
  import opened Tree
  import opened Address
  import opened Traversal

  /** The inner steps of a value address. */
  function Init(p: seq<Step>): seq<Step>
    requires |p| >= 1
  {
    p[..|p| - 1]
  }

  /** The final step of a value address. */
  function Last(p: seq<Step>): Step
    requires |p| >= 1
  {
    p[|p| - 1]
  }

  /** `q` does not pass through field `name` of the dict the inner steps reach. */
  predicate Outside(q: seq<Step>, inner: seq<Step>, name: string)
  {
    Diverges(q, inner) || (|q| > |inner| && q[..|inner|] == inner && q[|inner|].name != name)
  }

  /** Leaving a path that ends in one more step either leaves its inner
      steps or takes a different last step. */
  lemma {:induction false} DivergesSnoc(q: seq<Step>, inner: seq<Step>, last: Step)
    requires Diverges(q, inner + [last])
    ensures Diverges(q, inner) || (|q| > |inner| && q[..|inner|] == inner && q[|inner|] != last)
  {
    if inner == [] {
      assert (inner + [last])[0] == last;
      assert q[..0] == inner;
    } else {
      assert (inner + [last])[0] == inner[0] && (inner + [last])[1..] == inner[1..] + [last];
      if q[0] == inner[0] {
        DivergesSnoc(q[1..], inner[1..], last);
        if !Diverges(q[1..], inner[1..]) {
          assert q[..|inner|] == [q[0]] + q[1..][..|inner| - 1];
          assert inner == [inner[0]] + inner[1..];
        }
      }
    }
  }

  /** An edit leaves the names it does not touch as they were. */
  lemma ApplyEditOtherNames(c: Instance, e: Edit, m: string)
    requires ApplyEdit(c, e).Ok? && m != e.name
    ensures Lookup(ApplyEdit(c, e).value.fields, m) == Lookup(c.fields, m)
  {
    var fs := c.fields;
    match e
    case SetInstance(n, i, v) =>
      var xs := Subscript(c, n).value;
      assert ApplyEdit(c, e).value == Node(Assign(fs, n, xs[i := v]));
      LookupAssign(fs, n, xs[i := v], m);
    case DeleteInstance(n, i) =>
      var xs := Subscript(c, n).value;
      assert ApplyEdit(c, e).value == Node(Assign(fs, n, xs[..i] + xs[i + 1..]));
      LookupAssign(fs, n, xs[..i] + xs[i + 1..], m);
    case SetList(n, xs) =>
      LookupAssign(fs, n, xs, m);
    case DeleteList(n) =>
      LookupDelete(fs, n, m);
    case Append(n, v) =>
      var xs := Subscript(c, n).value;
      assert ApplyEdit(c, e).value == Node(Assign(fs, n, xs + [v]));
      LookupAssign(fs, n, xs + [v], m);
  }

  /** A writer changes nothing outside the field it edits. */
  lemma EditAtLeavesOthers(start: Instance, inner: seq<Step>, e: Edit, q: seq<Step>)
    requires EditAt(start, inner, e).Ok?
    requires Outside(q, inner, e.name)
    ensures Follow(EditAt(start, inner, e).value, q) == Follow(start, q)
  {
    if Diverges(q, inner) {
      EditAtFrame(start, inner, e, q);
    } else {
      var t := EditAt(start, inner, e).value;
      EditAtContainer(start, inner, e);
      var c := Follow(start, inner).value;
      var rest := q[|inner|..];
      assert q == inner + rest;
      FollowAppend(t, inner, rest);
      FollowAppend(start, inner, rest);
      ApplyEditOtherNames(c, e, rest[0].name);
    }
  }

  /** The container a value address ends in, and its last instance list. */
  lemma FollowLast(start: Instance, p: seq<Step>)
    requires |p| >= 1
    ensures Follow(start, p) ==
              match Follow(start, Init(p))
              case Err(e) => Err(e)
              case Ok(c) =>
                match Subscript(c, Last(p).name)
                case Err(e) => Err(e)
                case Ok(xs) => At(xs, Last(p).index)
  {
    assert p == Init(p) + [Last(p)];
    FollowAppend(start, Init(p), [Last(p)]);
    var f := Follow(start, Init(p));
    if f.Ok? {
      FollowOne(f.value, Last(p));
    }
  }

  /** Reading one step is one subscript and one index. */
  lemma FollowOne(c: Instance, st: Step)
    ensures Follow(c, [st]) ==
              match Subscript(c, st.name)
              case Err(e) => Err(e)
              case Ok(xs) => At(xs, st.index)
  {
    assert [st][1..] == [];
  }

  // ---------------------------------------------------------------------
  // _set_value_from_key_list
  // ---------------------------------------------------------------------

  /** Setting a value needs the value to exist already and raises just as
      reading it would; afterwards the value reads back, and its field's
      instance list is the old one with only that instance replaced. */
  lemma SetValueReadBack(start: Instance, p: seq<Step>, v: Instance)
    requires |p| >= 1
    ensures SetValueAt(start, p, v).Ok? <==> Follow(start, p).Ok?
    ensures SetValueAt(start, p, v).Err? ==> SetValueAt(start, p, v).error == Follow(start, p).error
    ensures SetValueAt(start, p, v).Ok? ==>
              GetFieldAt(start, Init(p), Last(p).name).Ok? &&
              Last(p).index < |GetFieldAt(start, Init(p), Last(p).name).value|
    ensures SetValueAt(start, p, v).Ok? ==>
              && Follow(SetValueAt(start, p, v).value, p) == Ok(v)
              && GetFieldAt(SetValueAt(start, p, v).value, Init(p), Last(p).name) ==
                   Ok(GetFieldAt(start, Init(p), Last(p).name).value[Last(p).index := v])
  {
    var e := SetInstance(Last(p).name, Last(p).index, v);
    EditAtContainer(start, Init(p), e);
    FollowLast(start, p);
    if SetValueAt(start, p, v).Ok? {
      var t := SetValueAt(start, p, v).value;
      var c := Follow(start, Init(p)).value;
      var xs := Lookup(c.fields, Last(p).name).value;
      LookupAssign(c.fields, Last(p).name, xs[Last(p).index := v], Last(p).name);
      FollowLast(t, p);
    }
  }

  /** A path that runs through the edited dict reads, after the edit, what
      the rest of it reads in the edited dict. */
  lemma EditAtThrough(start: Instance, inner: seq<Step>, e: Edit, rest: seq<Step>)
    requires EditAt(start, inner, e).Ok?
    ensures Follow(start, inner).Ok? && ApplyEdit(Follow(start, inner).value, e).Ok?
    ensures Follow(EditAt(start, inner, e).value, inner + rest) ==
              Follow(ApplyEdit(Follow(start, inner).value, e).value, rest)
    ensures Follow(start, inner + rest) == Follow(Follow(start, inner).value, rest)
  {
    EditAtContainer(start, inner, e);
    FollowAppend(EditAt(start, inner, e).value, inner, rest);
    FollowAppend(start, inner, rest);
  }

  /** Reading a path that starts at instance `j` of field `name`. */
  lemma FollowField(fs: seq<Field>, name: string, xs: seq<Instance>, j: nat, rest: seq<Step>)
    requires Lookup(fs, name) == Some(xs)
    ensures Follow(Node(fs), [Step(name, j)] + rest) ==
              if j < |xs| then Follow(xs[j], rest) else Err(IndexError)
  {
    assert ([Step(name, j)] + rest)[0] == Step(name, j);
    assert ([Step(name, j)] + rest)[1..] == rest;
  }

  /** Setting a value changes no path that leaves its address. */
  lemma SetValueFrame(start: Instance, p: seq<Step>, v: Instance, q: seq<Step>)
    requires |p| >= 1 && SetValueAt(start, p, v).Ok?
    requires Diverges(q, p)
    ensures Follow(SetValueAt(start, p, v).value, q) == Follow(start, q)
  {
    var e := SetInstance(Last(p).name, Last(p).index, v);
    assert p == Init(p) + [Last(p)];
    DivergesSnoc(q, Init(p), Last(p));
    if Diverges(q, Init(p)) {
      EditAtFrame(start, Init(p), e, q);
    } else if q[|Init(p)|].name != Last(p).name {
      EditAtLeavesOthers(start, Init(p), e, q);
    } else {
      var k := |Init(p)|;
      var rest := q[k..];
      assert q[..k] == Init(p) && q[k] != Last(p);
      assert rest[0] == q[k] && rest[0].index != Last(p).index;
      assert q == Init(p) + rest by {
        assert q == q[..k] + q[k..];
      }
      assert SetValueAt(start, p, v) == EditAt(start, Init(p), e);
      SetValueSibling(start, Init(p), Last(p), v, rest);
    }
  }

  /** Setting instance `i` of a field leaves its other instances, and
      everything below them, as they were. */
  lemma SetValueSibling(start: Instance, inner: seq<Step>, last: Step, v: Instance, rest: seq<Step>)
    requires EditAt(start, inner, SetInstance(last.name, last.index, v)).Ok?
    requires rest != [] && rest[0].name == last.name && rest[0].index != last.index
    ensures Follow(EditAt(start, inner, SetInstance(last.name, last.index, v)).value, inner + rest) ==
              Follow(start, inner + rest)
  {
    var e := SetInstance(last.name, last.index, v);
    EditAtThrough(start, inner, e, rest);
    ConsTail(rest);
    SetSiblingHere(Follow(start, inner).value, last.name, last.index, v, rest[0].index, rest[1..]);
  }

  /** In the dict itself: `xs[i] = v` leaves instance `j != i` alone. */
  lemma SetSiblingHere(c: Instance, n: string, i: nat, v: Instance, j: nat, rest: seq<Step>)
    requires ApplyEdit(c, SetInstance(n, i, v)).Ok? && j != i
    ensures Follow(ApplyEdit(c, SetInstance(n, i, v)).value, [Step(n, j)] + rest) ==
              Follow(c, [Step(n, j)] + rest)
  {
    var xs := Lookup(c.fields, n).value;
    var ys := xs[i := v];
    assert ApplyEdit(c, SetInstance(n, i, v)).value == Node(Assign(c.fields, n, ys));
    LookupAssign(c.fields, n, ys, n);
    FollowField(Assign(c.fields, n, ys), n, ys, j, rest);
    FollowField(c.fields, n, xs, j, rest);
  }

  lemma ConsTail<T>(a: seq<T>)
    requires |a| >= 1
    ensures a == [a[0]] + a[1..]
  {
  }

  // ---------------------------------------------------------------------
  // _del_value_from_key_list
  // ---------------------------------------------------------------------

  /** Deleting a value needs it to exist and raises just as reading it
      would; afterwards its field's list is the old one without it. */
  lemma DelValueEffect(start: Instance, p: seq<Step>)
    requires |p| >= 1
    ensures DelValueAt(start, p).Ok? <==> Follow(start, p).Ok?
    ensures DelValueAt(start, p).Err? ==> DelValueAt(start, p).error == Follow(start, p).error
    ensures DelValueAt(start, p).Ok? ==>
              GetFieldAt(start, Init(p), Last(p).name).Ok? &&
              Last(p).index < |GetFieldAt(start, Init(p), Last(p).name).value|
    ensures DelValueAt(start, p).Ok? ==>
              var xs := GetFieldAt(start, Init(p), Last(p).name).value;
              GetFieldAt(DelValueAt(start, p).value, Init(p), Last(p).name) ==
                Ok(xs[..Last(p).index] + xs[Last(p).index + 1..])
  {
    var e := DeleteInstance(Last(p).name, Last(p).index);
    EditAtContainer(start, Init(p), e);
    FollowLast(start, p);
    if DelValueAt(start, p).Ok? {
      var c := Follow(start, Init(p)).value;
      var xs := Lookup(c.fields, Last(p).name).value;
      var i := Last(p).index;
      LookupAssign(c.fields, Last(p).name, xs[..i] + xs[i + 1..], Last(p).name);
    }
  }

  /** After deleting instance `i` of a field, instances before `i` keep
      their index and later ones move down by one. */
  lemma DelValueShifts(start: Instance, p: seq<Step>, j: nat, rest: seq<Step>)
    requires |p| >= 1 && DelValueAt(start, p).Ok?
    ensures var t := DelValueAt(start, p).value;
            var here := Init(p) + [Step(Last(p).name, j)] + rest;
            var was := Init(p) + [Step(Last(p).name, if j < Last(p).index then j else j + 1)] + rest;
            Follow(t, here) == Follow(start, was)
  {
    var n, i := Last(p).name, Last(p).index;
    var j' := if j < i then j else j + 1;
    assert Init(p) + [Step(n, j)] + rest == Init(p) + ([Step(n, j)] + rest);
    assert Init(p) + [Step(n, j')] + rest == Init(p) + ([Step(n, j')] + rest);
    DeleteShifts(start, Init(p), n, i, j, rest);
  }

  lemma DeleteShifts(start: Instance, inner: seq<Step>, n: string, i: nat, j: nat, rest: seq<Step>)
    requires EditAt(start, inner, DeleteInstance(n, i)).Ok?
    ensures Follow(EditAt(start, inner, DeleteInstance(n, i)).value, inner + ([Step(n, j)] + rest)) ==
              Follow(start, inner + ([Step(n, if j < i then j else j + 1)] + rest))
  {
    var j' := if j < i then j else j + 1;
    var e := DeleteInstance(n, i);
    EditAtThrough(start, inner, e, [Step(n, j)] + rest);
    EditAtThrough(start, inner, e, [Step(n, j')] + rest);
    DeleteShiftsHere(Follow(start, inner).value, n, i, j, rest);
  }

  /** In the dict itself: `del xs[i]` moves instance `j + 1` to `j` from `i` on. */
  lemma DeleteShiftsHere(c: Instance, n: string, i: nat, j: nat, rest: seq<Step>)
    requires ApplyEdit(c, DeleteInstance(n, i)).Ok?
    ensures Follow(ApplyEdit(c, DeleteInstance(n, i)).value, [Step(n, j)] + rest) ==
              Follow(c, [Step(n, if j < i then j else j + 1)] + rest)
  {
    var j' := if j < i then j else j + 1;
    var xs := Lookup(c.fields, n).value;
    var ys := xs[..i] + xs[i + 1..];
    assert ApplyEdit(c, DeleteInstance(n, i)).value == Node(Assign(c.fields, n, ys));
    LookupAssign(c.fields, n, ys, n);
    FollowField(Assign(c.fields, n, ys), n, ys, j, rest);
    FollowField(c.fields, n, xs, j', rest);
    DeleteIndex(xs, i, j);
  }

  lemma DeleteIndex(xs: seq<Instance>, i: nat, j: nat)
    requires i < |xs|
    ensures |xs[..i] + xs[i + 1..]| == |xs| - 1
    ensures j < |xs| - 1 ==> (xs[..i] + xs[i + 1..])[j] == xs[if j < i then j else j + 1]
  {
  }

  // ---------------------------------------------------------------------
  // _set_field_from_key_list, _add_to_field_from_key_list, _del_field_from_key_list
  // ---------------------------------------------------------------------

  /** Setting a field needs the inner steps to reach a dict; the field
      then holds exactly the given list. */
  lemma SetFieldEffect(start: Instance, inner: seq<Step>, name: string, xs: seq<Instance>)
    ensures SetFieldAt(start, inner, name, xs).Ok? <==> Follow(start, inner).Ok? && Follow(start, inner).value.Node?
    ensures SetFieldAt(start, inner, name, xs).Ok? ==> GetFieldAt(SetFieldAt(start, inner, name, xs).value, inner, name) == Ok(xs)
  {
    var e := SetList(name, xs);
    EditAtContainer(start, inner, e);
    if SetFieldAt(start, inner, name, xs).Ok? {
      LookupAssign(Follow(start, inner).value.fields, name, xs, name);
    }
  }

  /** Appending needs the field to be readable; the field then reads as
      the old list with the value added at the end. */
  lemma AddToFieldEffect(start: Instance, inner: seq<Step>, name: string, v: Instance)
    ensures AddToFieldAt(start, inner, name, v).Ok? <==> GetFieldAt(start, inner, name).Ok?
    ensures AddToFieldAt(start, inner, name, v).Ok? ==>
              GetFieldAt(AddToFieldAt(start, inner, name, v).value, inner, name) ==
                Ok(GetFieldAt(start, inner, name).value + [v])
  {
    var e := Append(name, v);
    EditAtContainer(start, inner, e);
    if AddToFieldAt(start, inner, name, v).Ok? {
      var c := Follow(start, inner).value;
      LookupAssign(c.fields, name, Lookup(c.fields, name).value + [v], name);
    }
  }

  /** Every instance reached from a well-formed tree is well formed. */
  lemma {:induction false} FollowWellFormed(start: Instance, p: seq<Step>)
    requires WellFormed(start) && Follow(start, p).Ok?
    ensures WellFormed(Follow(start, p).value)
  {
    if p != [] {
      LookupWellFormed(start.fields, p[0].name);
      FollowWellFormed(Lookup(start.fields, p[0].name).value[p[0].index], p[1..]);
    }
  }

  /** Where the inner steps reach a dict, the field test is key membership. */
  lemma {:induction false} FieldExistsAtDict(start: Instance, inner: seq<Step>, name: string)
    requires Follow(start, inner).Ok? && Follow(start, inner).value.Node?
    ensures FieldExistsAt(start, inner, name) == Ok(Lookup(Follow(start, inner).value.fields, name).Some?)
  {
    if inner != [] {
      FieldExistsAtDict(Lookup(start.fields, inner[0].name).value[inner[0].index], inner[1..], name);
    }
  }

  /** Deleting a field needs it to be readable; afterwards it is gone. */
  lemma DelFieldEffect(start: Instance, inner: seq<Step>, name: string)
    requires WellFormed(start)
    ensures DelFieldAt(start, inner, name).Ok? <==> GetFieldAt(start, inner, name).Ok?
    ensures DelFieldAt(start, inner, name).Ok? ==>
              && FieldExistsAt(DelFieldAt(start, inner, name).value, inner, name) == Ok(false)
              && GetFieldAt(DelFieldAt(start, inner, name).value, inner, name) == Err(KeyError)
  {
    var e := DeleteList(name);
    EditAtContainer(start, inner, e);
    if DelFieldAt(start, inner, name).Ok? {
      var t := DelFieldAt(start, inner, name).value;
      var c := Follow(start, inner).value;
      FollowWellFormed(start, inner);
      LookupDelete(c.fields, name, name);
      FieldExistsAtDict(t, inner, name);
    }
  }
}
