/** The recursive `_*_from_key_list` helpers and `_check_if_*`: walking
    a parsed address down the tree to read, test or change what it names. */
module Traversal {
  import opened Results
  import opened Tree
  import opened Address

  // ---------------------------------------------------------------------
  // Readers
  // ---------------------------------------------------------------------

  /** Descends `start[name][index]` once per step. For a value address this
      is `_get_value_from_key_list`; for the inner steps of a field address
      it is the descent of `_get_field_from_key_list`. */
  function Follow(start: Instance, p: seq<Step>): Result<Instance>
  {
    if p == [] then Ok(start)
    else
      var xs :- Subscript(start, p[0].name);
      var x :- At(xs, p[0].index);
      Follow(x, p[1..])
  }

  /** `_get_field_from_key_list`: the whole instance list of field `name`
      of the dict the inner steps reach; KeyError if that is not a dict. */
  function GetFieldAt(start: Instance, inner: seq<Step>, name: string): Result<seq<Instance>>
  {
    var c :- Follow(start, inner);
    if !c.Node? then Err(KeyError) else Subscript(c, name)
  }

  /** `_check_if_value_exists`: false as soon as a field is missing or an
      index is past the end; `in` on a non-dict may raise or answer. A
      `None` reached part-way down holds nothing, so the test answers false
      there (as written, the walk restarts at the top instead; see
      `ValueExistsAsWritten`). */
  function ValueExistsAt(start: Instance, p: seq<Step>): Result<bool>
    requires |p| >= 1
  {
    if start == Null then Ok(false)
    else
      var has :- Contains(start, p[0].name);
      if !has then Ok(false)
      else
        var xs :- Subscript(start, p[0].name);
        if p[0].index > |xs| - 1 then Ok(false)
        else if |p| == 1 then Ok(true)
        else ValueExistsAt(xs[p[0].index], p[1..])
  }

  /** `_check_if_field_exists`: like `ValueExistsAt`, but the last segment
      only needs its name to be `in` the container. */
  function FieldExistsAt(start: Instance, inner: seq<Step>, name: string): Result<bool>
  {
    if start == Null then Ok(false)
    else if inner == [] then Contains(start, name)
    else
      var has :- Contains(start, inner[0].name);
      if !has then Ok(false)
      else
        var xs :- Subscript(start, inner[0].name);
        if inner[0].index > |xs| - 1 then Ok(false)
        else FieldExistsAt(xs[inner[0].index], inner[1..], name)
  }

  /** Reading a path in two parts: the first part, then the rest from there. */
  lemma {:induction false} FollowAppend(start: Instance, a: seq<Step>, b: seq<Step>)
    ensures Follow(start, a + b) ==
              match Follow(start, a)
              case Ok(c) => Follow(c, b)
              case Err(e) => Err(e)
  {
    if a != [] {
      assert (a + b)[0] == a[0] && (a + b)[1..] == a[1..] + b;
      match Subscript(start, a[0].name)
      case Err(_) =>
      case Ok(xs) =>
        if a[0].index < |xs| {
          FollowAppend(xs[a[0].index], a[1..], b);
        }
    } else {
      assert a + b == b;
    }
  }

  /** A value exists exactly when reading it succeeds. A missing field or
      index makes the read raise KeyError or IndexError but the test answer
      false; the test itself raises only where the read raises TypeError,
      on descending through a value that is not a dict. */
  lemma {:induction false} ValueExistsMatchesGet(start: Instance, p: seq<Step>)
    requires |p| >= 1
    ensures ValueExistsAt(start, p) == Ok(true) <==> Follow(start, p).Ok?
    ensures Follow(start, p).Err? && Follow(start, p).error != TypeError ==> ValueExistsAt(start, p) == Ok(false)
    ensures ValueExistsAt(start, p).Err? ==> ValueExistsAt(start, p).error == TypeError && Follow(start, p) == Err(TypeError)
  {
    if start.Node? {
      match Lookup(start.fields, p[0].name)
      case None =>
      case Some(xs) =>
        if p[0].index < |xs| && |p| > 1 {
          ValueExistsMatchesGet(xs[p[0].index], p[1..]);
        }
    }
  }

  /** Reading a field succeeds only where the field test answers true, and a
      test that answers false or raises means reading raises. A missing
      inner field or index makes the test answer false, not raise; it raises
      only TypeError. The test also answers true, with reading raising
      KeyError, when the inner steps end on a string or list that merely
      contains the field name. */
  lemma {:induction false} FieldExistsMatchesGet(start: Instance, inner: seq<Step>, name: string)
    ensures GetFieldAt(start, inner, name).Ok? ==> FieldExistsAt(start, inner, name) == Ok(true)
    ensures FieldExistsAt(start, inner, name) != Ok(true) ==> GetFieldAt(start, inner, name).Err?
    ensures FieldExistsAt(start, inner, name) == Ok(true) ==>
              GetFieldAt(start, inner, name).Ok? || (Follow(start, inner).Ok? && !Follow(start, inner).value.Node?)
    ensures Follow(start, inner).Err? && Follow(start, inner).error != TypeError ==> FieldExistsAt(start, inner, name) == Ok(false)
    ensures FieldExistsAt(start, inner, name).Err? ==> FieldExistsAt(start, inner, name).error == TypeError
  {
    if inner != [] && start.Node? {
      match Lookup(start.fields, inner[0].name)
      case None =>
      case Some(xs) =>
        if inner[0].index < |xs| {
          FieldExistsMatchesGet(xs[inner[0].index], inner[1..], name);
        }
    }
  }

  /** Field "x" is reported present under instance 0 of "a" when that
      instance is the string "xyz", yet reading it raises KeyError. */
  lemma FieldExistsThroughString()
    ensures var start := Node([Field("a", [Leaf(Str("xyz"))])]);
            FieldExistsAt(start, [Step("a", 0)], "x") == Ok(true) &&
            GetFieldAt(start, [Step("a", 0)], "x") == Err(KeyError)
  {
    var start := Node([Field("a", [Leaf(Str("xyz"))])]);
    assert OccursAt("x", "xyz", 0);
    assert Follow(Leaf(Str("xyz")), []) == Ok(Leaf(Str("xyz")));
  }

  /** A `None` reached part-way down holds no value and no field: reading
      past it raises TypeError, and both existence tests answer false, so a
      writer vivifies through it (the `None` becomes `{}`). */
  lemma {:induction false} NoneHoldsNothing(start: Instance, a: seq<Step>, b: seq<Step>, name: string)
    requires Follow(start, a) == Ok(Null)
    ensures b != [] ==> Follow(start, a + b) == Err(TypeError)
    ensures b != [] ==> ValueExistsAt(start, a + b) == Ok(false)
    ensures FieldExistsAt(start, a + b, name) == Ok(false)
  {
    if a == [] {
      assert a + b == b;
    } else {
      assert (a + b)[0] == a[0] && (a + b)[1..] == a[1..] + b;
      var xs := Subscript(start, a[0].name).value;
      NoneHoldsNothing(xs[a[0].index], a[1..], b, name);
    }
  }

  // ---------------------------------------------------------------------
  // The `start=None` default, as written
  // ---------------------------------------------------------------------

  /** `_get_value_from_key_list` exactly as written. Each recursive call
      begins with `if start is None: start = self.get_data()`, meant for the
      outermost call; but an instance that is `None` part-way down is passed
      on as `start=None` too, and the walk restarts at the record's
      top-level dict `root`. The other `_*_from_key_list` and `_check_if_*`
      helpers begin the same way. */
  function FollowAsWritten(root: Instance, start: Instance, p: seq<Step>): Result<Instance>
    decreases |p|
  {
    if p == [] then Ok(start)
    else
      var here := if start == Null then root else start;
      var xs :- Subscript(here, p[0].name);
      var x :- At(xs, p[0].index);
      FollowAsWritten(root, x, p[1..])
  }

  /** The as-written walk differs from `Follow` only where `Follow` raises
      TypeError at a `None` that the as-written walk restarts from. */
  lemma {:induction false} FollowAsWrittenDiffers(root: Instance, start: Instance, p: seq<Step>)
    requires start != Null
    ensures FollowAsWritten(root, start, p) != Follow(start, p) ==> Follow(start, p) == Err(TypeError)
    decreases |p|
  {
    if p != [] {
      match Subscript(start, p[0].name)
      case Err(_) =>
      case Ok(xs) =>
        if p[0].index < |xs| && xs[p[0].index] != Null {
          FollowAsWrittenDiffers(root, xs[p[0].index], p[1..]);
        } else if p[0].index < |xs| && p[1..] != [] {
          assert Follow(start, p) == Follow(xs[p[0].index], p[1..]) == Err(TypeError);
        } else if p[0].index < |xs| {
          assert Follow(start, p) == Ok(Null) == FollowAsWritten(root, start, p);
        }
    }
  }

  /** With `a` holding `None` and `b` holding 1, reading `a0.b0` as written
      answers 1, the value of top-level `b0`; no value lies under `a0`. */
  lemma NoneRestartsAtTop()
    ensures var root := Node([Field("a", [Null]), Field("b", [Leaf(Int(1))])]);
            var p := [Step("a", 0), Step("b", 0)];
            && FollowAsWritten(root, root, p) == Ok(Leaf(Int(1)))
            && Follow(root, p) == Err(TypeError)
            && Follow(root, [Step("a", 0)]) == Ok(Null)
            && Follow(root, [Step("b", 0)]) == Ok(Leaf(Int(1)))
  {
    var root := Node([Field("a", [Null]), Field("b", [Leaf(Int(1))])]);
    assert Lookup(root.fields, "a") == Some([Null]);
    assert Lookup(root.fields, "b") == Some([Leaf(Int(1))]);
    var p := [Step("a", 0), Step("b", 0)];
    assert p[1..] == [Step("b", 0)];
    assert FollowAsWritten(root, Null, [Step("b", 0)]) == Ok(Leaf(Int(1)));
  }

  // ---------------------------------------------------------------------
  // Writers
  // ---------------------------------------------------------------------

  /** The change a writer makes to the dict its inner steps reach. */
  datatype Edit =
    | SetInstance(name: string, index: nat, value: Instance)  // start[name][index] = value
    | DeleteInstance(name: string, index: nat)                // del start[name][index]
    | SetList(name: string, insts: seq<Instance>)             // start[name] = insts
    | DeleteList(name: string)                                // del start[name]
    | Append(name: string, value: Instance)                   // start[name].append(value)

  /** Performs an edit on one container, raising as Python would: a
      non-dict cannot be indexed by name or assigned into (TypeError), a
      missing name raises KeyError, an index past the end IndexError. */
  function ApplyEdit(c: Instance, e: Edit): (r: Result<Instance>)
    ensures r.Ok? ==> c.Node? && r.value.Node?
  {
    match e
    case SetInstance(name, i, v) =>
      var xs :- Subscript(c, name);
      if i < |xs| then Ok(Node(Assign(c.fields, name, xs[i := v]))) else Err(IndexError)
    case DeleteInstance(name, i) =>
      var xs :- Subscript(c, name);
      if i < |xs| then Ok(Node(Assign(c.fields, name, xs[..i] + xs[i + 1..]))) else Err(IndexError)
    case SetList(name, xs) =>
      if c.Node? then Ok(Node(Assign(c.fields, name, xs))) else Err(TypeError)
    case DeleteList(name) =>
      if !c.Node? then Err(TypeError)
      else if Lookup(c.fields, name).None? then Err(KeyError)
      else Ok(Node(Delete(c.fields, name)))
    case Append(name, v) =>
      var xs :- Subscript(c, name);
      Ok(Node(Assign(c.fields, name, xs + [v])))
  }

  /** Descends the inner steps as every writer does, applies the edit to
      the dict reached, and rebuilds the path above it: the value picture of
      Python's in-place update through aliased sub-dicts and lists. */
  function EditAt(start: Instance, inner: seq<Step>, e: Edit): (r: Result<Instance>)
    ensures r.Ok? ==> start.Node? && r.value.Node?
  {
    if inner == [] then ApplyEdit(start, e)
    else
      var xs :- Subscript(start, inner[0].name);
      var x :- At(xs, inner[0].index);
      var x' :- EditAt(x, inner[1..], e);
      Ok(Node(Assign(start.fields, inner[0].name, xs[inner[0].index := x'])))
  }

  /** `_set_value_from_key_list`. */
  function SetValueAt(start: Instance, p: seq<Step>, v: Instance): Result<Instance>
    requires |p| >= 1
  {
    EditAt(start, p[..|p| - 1], SetInstance(p[|p| - 1].name, p[|p| - 1].index, v))
  }

  /** `_del_value_from_key_list`. */
  function DelValueAt(start: Instance, p: seq<Step>): Result<Instance>
    requires |p| >= 1
  {
    EditAt(start, p[..|p| - 1], DeleteInstance(p[|p| - 1].name, p[|p| - 1].index))
  }

  /** `_set_field_from_key_list`. */
  function SetFieldAt(start: Instance, inner: seq<Step>, name: string, insts: seq<Instance>): Result<Instance>
  {
    EditAt(start, inner, SetList(name, insts))
  }

  /** `_del_field_from_key_list`. */
  function DelFieldAt(start: Instance, inner: seq<Step>, name: string): Result<Instance>
  {
    EditAt(start, inner, DeleteList(name))
  }

  /** `_add_to_field_from_key_list`. */
  function AddToFieldAt(start: Instance, inner: seq<Step>, name: string, v: Instance): Result<Instance>
  {
    EditAt(start, inner, Append(name, v))
  }

  /** An edited tree, read at the edited dict, shows the edited dict; the
      writer fails exactly when the descent or the edit does, with the same
      exception. */
  lemma {:induction false} EditAtContainer(start: Instance, inner: seq<Step>, e: Edit)
    ensures EditAt(start, inner, e).Ok? <==> Follow(start, inner).Ok? && ApplyEdit(Follow(start, inner).value, e).Ok?
    ensures EditAt(start, inner, e).Ok? ==> Follow(EditAt(start, inner, e).value, inner) == ApplyEdit(Follow(start, inner).value, e)
    ensures EditAt(start, inner, e).Err? ==>
              EditAt(start, inner, e).error ==
                if Follow(start, inner).Err? then Follow(start, inner).error
                else ApplyEdit(Follow(start, inner).value, e).error
  {
    if inner != [] && start.Node? {
      var st := inner[0];
      match Lookup(start.fields, st.name)
      case None =>
      case Some(xs) =>
        if st.index < |xs| {
          EditAtContainer(xs[st.index], inner[1..], e);
          match EditAt(xs[st.index], inner[1..], e)
          case Err(_) =>
          case Ok(x') =>
            LookupAssign(start.fields, st.name, xs[st.index := x'], st.name);
        }
    }
  }

  /** `q` leaves `p` at some step: a different name or a different index. */
  predicate Diverges(q: seq<Step>, p: seq<Step>)
  {
    q != [] && p != [] && (q[0] != p[0] || Diverges(q[1..], p[1..]))
  }

  /** A writer changes nothing on a path that leaves its inner steps. */
  lemma {:induction false} EditAtFrame(start: Instance, inner: seq<Step>, e: Edit, q: seq<Step>)
    requires EditAt(start, inner, e).Ok?
    requires Diverges(q, inner)
    ensures Follow(EditAt(start, inner, e).value, q) == Follow(start, q)
  {
    var st := inner[0];
    var xs := Lookup(start.fields, st.name).value;
    var x' := EditAt(xs[st.index], inner[1..], e).value;
    var ys := xs[st.index := x'];
    LookupAssign(start.fields, st.name, ys, q[0].name);
    if q[0] == st {
      EditAtFrame(xs[st.index], inner[1..], e, q[1..]);
    }
  }

  /** Writers that store well-formed instances keep the tree well formed. */
  predicate EditWellFormed(e: Edit)
  {
    match e
    case SetInstance(_, _, v) => WellFormed(v)
    case SetList(_, xs) => InstsWellFormed(xs)
    case Append(_, v) => WellFormed(v)
    case _ => true
  }

  lemma LookupWellFormed(fs: seq<Field>, name: string)
    requires FieldsWellFormed(fs) && Lookup(fs, name).Some?
    ensures InstsWellFormed(Lookup(fs, name).value)
  {
    var i :| 0 <= i < |fs| && fs[i] == Field(name, Lookup(fs, name).value);
    assert forall j :: 0 <= j < |fs[i].insts| ==> WellFormed(fs[i].insts[j]);
  }

  lemma ApplyEditWellFormed(c: Instance, e: Edit)
    requires WellFormed(c) && EditWellFormed(e) && ApplyEdit(c, e).Ok?
    ensures WellFormed(ApplyEdit(c, e).value)
  {
    var fs := c.fields;
    match e
    case SetInstance(name, i, v) =>
      LookupWellFormed(fs, name);
      var xs := Lookup(fs, name).value;
      assert InstsWellFormed(xs[i := v]);
      AssignWellFormed(fs, name, xs[i := v]);
    case DeleteInstance(name, i) =>
      LookupWellFormed(fs, name);
      var xs := Lookup(fs, name).value;
      var ys := xs[..i] + xs[i + 1..];
      assert InstsWellFormed(ys) by {
        forall j | 0 <= j < |ys| ensures WellFormed(ys[j]) {
          if j < i { assert ys[j] == xs[j]; }
          else { assert ys[j] == xs[j + 1]; }
        }
      }
      AssignWellFormed(fs, name, xs[..i] + xs[i + 1..]);
    case SetList(name, xs) =>
      AssignWellFormed(fs, name, xs);
    case DeleteList(name) =>
      DeleteWellFormed(fs, name);
    case Append(name, v) =>
      LookupWellFormed(fs, name);
      var xs := Lookup(fs, name).value;
      assert InstsWellFormed(xs + [v]);
      AssignWellFormed(fs, name, xs + [v]);
  }

  /** Every writer keeps each dict of the tree a dict (no key twice). */
  lemma {:induction false} EditAtWellFormed(start: Instance, inner: seq<Step>, e: Edit)
    requires WellFormed(start) && EditWellFormed(e) && EditAt(start, inner, e).Ok?
    ensures WellFormed(EditAt(start, inner, e).value)
  {
    if inner == [] {
      ApplyEditWellFormed(start, e);
    } else {
      var st := inner[0];
      var xs := Lookup(start.fields, st.name).value;
      LookupWellFormed(start.fields, st.name);
      EditAtWellFormed(xs[st.index], inner[1..], e);
      var x' := EditAt(xs[st.index], inner[1..], e).value;
      assert InstsWellFormed(xs[st.index := x']);
      AssignWellFormed(start.fields, st.name, xs[st.index := x']);
    }
  }
}
