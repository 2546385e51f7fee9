/** `_init_field_from_key_list`: creating the fields and instances an
    address names, so that the setter that runs next finds them. */
module Vivification {
  import opened Results
  import opened Tree
  import opened Address
  import opened Traversal

  /** The segments walked for an address whose inner steps are `inner`
      and whose last segment is `last` (indexed for a value address,
      unindexed for a field address). */
  function Segs(inner: seq<Step>, last: Segment): (segs: seq<Segment>)
    ensures |segs| == |inner| + 1 && segs[|inner|] == last
    ensures inner != [] ==> segs[0] == Segment(inner[0].name, Some(inner[0].index))
    ensures inner != [] ==> segs[1..] == Segs(inner[1..], last)
  {
    var segs := ValueSegments(inner) + [last];
    assert inner != [] ==> segs[1..] == ValueSegments(inner[1..]) + [last];
    segs
  }

  /** Whether the `while` loop pads the list: only for a nonzero index
      (`if new_key_index:` treats index 0 like no index), and only while
      the list is too short. */
  predicate Pads(xs: seq<Instance>, index: Option<nat>)
  {
    index.Some? && index.value > 0 && |xs| < index.value + 1
  }

  /** The list of field `name` once created (`[None]` when missing) and
      padded with `None` up to a nonzero index. */
  function Grown(fs: seq<Field>, name: string, index: Option<nat>): (xs: seq<Instance>)
    ensures Lookup(fs, name).Some? ==> Lookup(fs, name).value <= xs
    ensures Lookup(fs, name).Some? && !Pads(Lookup(fs, name).value, index) ==> xs == Lookup(fs, name).value
    ensures Lookup(fs, name).None? ==> |xs| >= 1 && xs[0] == Null
    ensures index.Some? && index.value > 0 ==> index.value < |xs|
    ensures forall j :: 0 <= j < |xs| && (Lookup(fs, name).None? || j >= |Lookup(fs, name).value|) ==> xs[j] == Null
  {
    var ys := match Lookup(fs, name) case Some(ys) => ys case None => [Null];
    if Pads(ys, index) then ys + Nulls(index.value + 1 - |ys|) else ys
  }

  /** What the descent continues into: `{}` in place of a `None`. */
  function Child(x: Instance): (c: Instance)
    ensures c != Null && (x != Null ==> c == x)
  {
    if x == Null then Node([]) else x
  }

  /** The vivified tree and, if Python raised part-way, the exception. The
      changes made before the exception are kept, as Python mutates in place:
      the missing field is created as `[None]`, a list padded with `None` up
      to a nonzero index, and a `None` on the way down replaced by `{}`.
      (Assigning a dict key the list it already holds changes nothing, see
      `AssignSame`, so the one assignment below covers "create if missing,
      pad if short".) `in` and item assignment on a container that is not a
      dict raise TypeError, except that a string or list already "containing"
      the last name is passed over when there is nothing to pad. */
  function Vivify(start: Instance, segs: seq<Segment>): (r: (Instance, Option<Error>))
    requires |segs| >= 1
    ensures r.1.Some? ==> r.1.value in {TypeError, IndexError}
    ensures start.Node? <==> r.0.Node?
    decreases |segs|
  {
    var name, index := segs[0].name, segs[0].index;
    match Contains(start, name)
    case Err(e) => (start, Some(e))
    case Ok(has) =>
      if !start.Node? then
        (start, if has && |segs| == 1 && !(index.Some? && index.value > 0) then None else Some(TypeError))
      else
        var xs := Grown(start.fields, name, index);
        if |segs| == 1 then (Node(Assign(start.fields, name, xs)), None)
        else if index.None? then (Node(Assign(start.fields, name, xs)), Some(TypeError))
        else if index.value >= |xs| then (Node(Assign(start.fields, name, xs)), Some(IndexError))
        else
          var (c, err) := Vivify(Child(xs[index.value]), segs[1..]);
          (Node(Assign(start.fields, name, xs[index.value := c])), err)
  }

  /** `_init_field_from_key_list` as the loop Python runs: create, pad one
      `None` at a time, convert, descend. */
  method InitField(start: Instance, segs: seq<Segment>) returns (t: Instance, err: Option<Error>)
    requires |segs| >= 1
    ensures (t, err) == Vivify(start, segs)
    decreases |segs|
  {
    var name, index := segs[0].name, segs[0].index;
    var has := Contains(start, name);
    if has.Err? {
      return start, Some(has.error);
    }
    if !start.Node? {
      if has.value && |segs| == 1 && !(index.Some? && index.value > 0) {
        return start, None;
      }
      return start, Some(TypeError);
    }
    var xs := [Null];
    if has.value {
      xs := Lookup(start.fields, name).value;
    }
    var ys := xs;
    if index.Some? && index.value > 0 {
      while |xs| < index.value + 1
        invariant |ys| <= |xs| <= if |ys| < index.value + 1 then index.value + 1 else |ys|
        invariant xs == ys + Nulls(|xs| - |ys|)
        decreases index.value + 1 - |xs|
      {
        xs := xs + [Null];
      }
    }
    assert xs == Grown(start.fields, name, index);
    t := Node(Assign(start.fields, name, xs));
    if |segs| == 1 {
      return t, None;
    }
    if index.None? {
      return t, Some(TypeError);
    }
    var i := index.value;
    if i >= |xs| {
      return t, Some(IndexError);
    }
    var child := xs[i];
    if child == Null {
      child := Node([]);
    }
    var c;
    c, err := InitField(child, segs[1..]);
    t := Node(Assign(start.fields, name, xs[i := c]));
  }

  // ---------------------------------------------------------------------
  // What vivification guarantees
  // ---------------------------------------------------------------------

  /** Re-assigning a key its current instances changes nothing. */
  lemma {:induction false} AssignSame(fs: seq<Field>, name: string)
    requires Lookup(fs, name).Some?
    ensures Assign(fs, name, Lookup(fs, name).value) == fs
  {
    if fs[0].name != name {
      AssignSame(fs[1..], name);
    }
  }

  /** On a fresh `{}`, vivification never raises. */
  lemma {:induction false} VivifyFresh(inner: seq<Step>, last: Segment)
    ensures Vivify(Node([]), Segs(inner, last)).1.None?
  {
    if inner != [] {
      VivifyFresh(inner[1..], last);
    }
  }

  /** Vivification is all or nothing: when it raises, the tree is as it was.
      Whatever it creates lies on the way to a fresh `{}`, which cannot fail. */
  lemma {:induction false} VivifyAtomic(start: Instance, inner: seq<Step>, last: Segment)
    ensures Vivify(start, Segs(inner, last)).1.Some? ==> Vivify(start, Segs(inner, last)).0 == start
  {
    var segs := Segs(inner, last);
    var r := Vivify(start, segs);
    if r.1.Some? && inner != [] && start.Node? {
      var name, i := inner[0].name, inner[0].index;
      var xs := Grown(start.fields, name, Some(i));
      if i < |xs| {
        VivifyFresh(inner[1..], last);
        assert xs[i] != Null;
        VivifyAtomic(xs[i], inner[1..], last);
        assert xs[i := Vivify(xs[i], segs[1..]).0] == xs;
      }
      assert Lookup(start.fields, name) == Some(xs);
      AssignSame(start.fields, name);
    }
  }

  /** One step of vivification on a dict: the first field is grown, and
      the instance the step names is replaced by its own vivification. */
  lemma VivifyDescends(start: Instance, inner: seq<Step>, last: Segment)
    requires start.Node? && inner != []
    requires inner[0].index < |Grown(start.fields, inner[0].name, Some(inner[0].index))|
    ensures var xs := Grown(start.fields, inner[0].name, Some(inner[0].index));
            var r := Vivify(Child(xs[inner[0].index]), Segs(inner[1..], last));
            Vivify(start, Segs(inner, last)) ==
              (Node(Assign(start.fields, inner[0].name, xs[inner[0].index := r.0])), r.1)
  {
    var segs := Segs(inner, last);
    assert segs[0] == Segment(inner[0].name, Some(inner[0].index)) && |segs| > 1;
  }

  /** The last step of vivification on a dict grows the field and stops. */
  lemma VivifyEnds(start: Instance, last: Segment)
    requires start.Node?
    ensures Vivify(start, Segs([], last)) ==
              (Node(Assign(start.fields, last.name, Grown(start.fields, last.name, last.index))), None)
  {
    assert Segs([], last) == [last];
  }

  /** A field read through a nonempty path passes through a dict at every
      step, the first of them `start`. */
  lemma GetFieldStep(start: Instance, inner: seq<Step>, name: string)
    requires inner != [] && GetFieldAt(start, inner, name).Ok?
    ensures start.Node? && Lookup(start.fields, inner[0].name).Some?
    ensures var ys := Lookup(start.fields, inner[0].name).value;
            inner[0].index < |ys| && ys[inner[0].index].Node? &&
            GetFieldAt(start, inner, name) == GetFieldAt(ys[inner[0].index], inner[1..], name)
  {
    var ys := Lookup(start.fields, inner[0].name).value;
    var c := ys[inner[0].index];
    assert Follow(start, inner) == Follow(c, inner[1..]);
    if inner[1..] == [] {
      assert Follow(c, []) == Ok(c);
    } else {
      assert Subscript(c, inner[1..][0].name).Ok?;
    }
  }

  /** Where the field an address names exists already with the instance it
      names, vivification changes nothing. */
  lemma {:induction false} VivifyNoop(start: Instance, inner: seq<Step>, last: Segment)
    requires GetFieldAt(start, inner, last.name).Ok?
    requires last.index.Some? ==> last.index.value < |GetFieldAt(start, inner, last.name).value|
    ensures Vivify(start, Segs(inner, last)) == (start, None)
  {
    if inner == [] {
      VivifyEnds(start, last);
      AssignSame(start.fields, last.name);
    } else {
      var name, i := inner[0].name, inner[0].index;
      GetFieldStep(start, inner, last.name);
      var ys := Lookup(start.fields, name).value;
      VivifyDescends(start, inner, last);
      VivifyNoop(ys[i], inner[1..], last);
      assert ys[i := ys[i]] == ys;
      AssignSame(start.fields, name);
    }
  }

  /** The inner steps lead somewhere, and where they lead to a dict it
      holds the field; a nonzero index is within its list. */
  predicate Reached(t: Instance, inner: seq<Step>, last: Segment)
  {
    && Follow(t, inner).Ok?
    && (Follow(t, inner).value.Node? ==>
          && GetFieldAt(t, inner, last.name).Ok?
          && (last.index.Some? ==>
                var xs := GetFieldAt(t, inner, last.name).value;
                last.index.value < |xs| || (last.index.value == 0 && xs == [])))
  }

  /** After vivification the address is reached. Index 0 of a field that
      already existed empty is not created: the padding loop only runs for a
      nonzero index. */
  lemma {:induction false} VivifyReaches(start: Instance, inner: seq<Step>, last: Segment)
    requires Vivify(start, Segs(inner, last)).1.None?
    ensures Reached(Vivify(start, Segs(inner, last)).0, inner, last)
    decreases |inner|
  {
    if inner == [] {
      ReachesHere(start, last);
    } else {
      var segs := Segs(inner, last);
      assert start.Node?;
      var name, i := inner[0].name, inner[0].index;
      var xs := Grown(start.fields, name, Some(i));
      assert segs[0] == Segment(name, Some(i)) && |segs| > 1;
      assert i < |xs|;
      var r := Vivify(Child(xs[i]), segs[1..]);
      assert Vivify(start, segs) == (Node(Assign(start.fields, name, xs[i := r.0])), r.1);
      VivifyReaches(Child(xs[i]), inner[1..], last);
      ReachedStep(start.fields, inner, last, xs[i := r.0]);
    }
  }

  lemma ReachesHere(start: Instance, last: Segment)
    requires Vivify(start, Segs([], last)).1.None?
    ensures Reached(Vivify(start, Segs([], last)).0, [], last)
  {
    if start.Node? {
      LookupAssign(start.fields, last.name, Grown(start.fields, last.name, last.index), last.name);
    }
  }

  lemma ReachedStep(fs: seq<Field>, inner: seq<Step>, last: Segment, zs: seq<Instance>)
    requires inner != [] && inner[0].index < |zs| && Reached(zs[inner[0].index], inner[1..], last)
    ensures Reached(Node(Assign(fs, inner[0].name, zs)), inner, last)
  {
    var t := Node(Assign(fs, inner[0].name, zs));
    var c := zs[inner[0].index];
    LookupAssign(fs, inner[0].name, zs, inner[0].name);
    assert Follow(t, inner) == Follow(c, inner[1..]);
    assert GetFieldAt(t, inner, last.name) == GetFieldAt(c, inner[1..], last.name);
  }

  /** `q` leaves the address: it turns off the inner steps, or names a
      different field or instance at the end. */
  predicate Apart(q: seq<Step>, inner: seq<Step>, last: Segment)
  {
    q != [] &&
    if inner == [] then q[0].name != last.name || (last.index.Some? && q[0].index != last.index.value)
    else q[0] != inner[0] || Apart(q[1..], inner[1..], last)
  }

  /** Vivification loses nothing: every value readable before, at a path
      that leaves the address, reads the same afterwards. */
  lemma {:induction false} VivifyKeeps(start: Instance, inner: seq<Step>, last: Segment, q: seq<Step>)
    requires Vivify(start, Segs(inner, last)).1.None?
    requires Apart(q, inner, last) && Follow(start, q).Ok?
    ensures Follow(Vivify(start, Segs(inner, last)).0, q) == Follow(start, q)
  {
    var segs := Segs(inner, last);
    var t := Vivify(start, segs).0;
    var name, index := segs[0].name, segs[0].index;
    var m, j := q[0].name, q[0].index;
    var xs := Grown(start.fields, name, index);
    var zs := if inner == [] then xs else xs[index.value := Vivify(Child(xs[index.value]), segs[1..]).0];
    assert t == Node(Assign(start.fields, name, zs));
    LookupAssign(start.fields, name, zs, m);
    if m == name {
      var ys := Lookup(start.fields, name).value;
      if inner != [] && q[0] == inner[0] {
        var i := index.value;
        assert ys[i] != Null;
        VivifyKeeps(ys[i], inner[1..], last, q[1..]);
        assert zs[i] == Vivify(ys[i], segs[1..]).0;
      } else {
        assert zs[j] == ys[j];
      }
    }
  }

  /** Vivifying a well-formed tree keeps it well formed: new fields get new
      names, and new instances are `None` or `{}`. */
  lemma {:induction false} VivifyWellFormed(start: Instance, segs: seq<Segment>)
    requires |segs| >= 1 && WellFormed(start)
    ensures WellFormed(Vivify(start, segs).0)
    decreases |segs|
  {
    if start.Node? {
      var name, index := segs[0].name, segs[0].index;
      var xs := Grown(start.fields, name, index);
      if Lookup(start.fields, name).Some? {
        LookupWellFormed(start.fields, name);
      }
      assert InstsWellFormed(xs);
      var zs := xs;
      if |segs| > 1 && index.Some? && index.value < |xs| {
        var i := index.value;
        VivifyWellFormed(Child(xs[i]), segs[1..]);
        zs := xs[i := Vivify(Child(xs[i]), segs[1..]).0];
      }
      assert InstsWellFormed(zs);
      AssignWellFormed(start.fields, name, zs);
    }
  }

  /** The inner steps lead to a dict holding the field, with the named
      instance within its list. */
  predicate FullyReached(t: Instance, inner: seq<Step>, last: Segment)
  {
    && Follow(t, inner).Ok?
    && Follow(t, inner).value.Node?
    && GetFieldAt(t, inner, last.name).Ok?
    && (last.index.Some? ==> last.index.value < |GetFieldAt(t, inner, last.name).value|)
  }

  lemma FullyReachedStep(fs: seq<Field>, inner: seq<Step>, last: Segment, zs: seq<Instance>)
    requires inner != [] && inner[0].index < |zs| && FullyReached(zs[inner[0].index], inner[1..], last)
    ensures FullyReached(Node(Assign(fs, inner[0].name, zs)), inner, last)
  {
    var t := Node(Assign(fs, inner[0].name, zs));
    var c := zs[inner[0].index];
    LookupAssign(fs, inner[0].name, zs, inner[0].name);
    assert Follow(t, inner) == Follow(c, inner[1..]);
    assert GetFieldAt(t, inner, last.name) == GetFieldAt(c, inner[1..], last.name);
  }

  /** Vivifying a fresh `{}` creates the whole address. */
  lemma {:induction false} VivifyFreshReaches(inner: seq<Step>, last: Segment)
    ensures FullyReached(Vivify(Node([]), Segs(inner, last)).0, inner, last)
  {
    var segs := Segs(inner, last);
    if inner == [] {
      var xs := Grown([], last.name, last.index);
      LookupAssign([], last.name, xs, last.name);
    } else {
      var name, i := inner[0].name, inner[0].index;
      var xs := Grown([], name, Some(i));
      VivifyFreshReaches(inner[1..], last);
      FullyReachedStep([], inner, last, xs[i := Vivify(Node([]), segs[1..]).0]);
    }
  }

  /** A vivification that changes anything creates the whole address: the
      first change puts a `None` or `{}` on the path, and everything below
      it is created afresh. So a setter that follows a vivification which
      changed the tree cannot fail. */
  lemma {:induction false} VivifyChanges(start: Instance, inner: seq<Step>, last: Segment)
    requires Vivify(start, Segs(inner, last)).1.None?
    ensures var t := Vivify(start, Segs(inner, last)).0;
            t == start || FullyReached(t, inner, last)
    decreases |inner|
  {
    var segs := Segs(inner, last);
    var t := Vivify(start, segs).0;
    if start.Node? {
      var name, index := segs[0].name, segs[0].index;
      var xs := Grown(start.fields, name, index);
      if inner == [] {
        if Lookup(start.fields, name) == Some(xs) {
          AssignSame(start.fields, name);
        } else {
          LookupAssign(start.fields, name, xs, name);
        }
      } else {
        var i := index.value;
        var c := Vivify(Child(xs[i]), segs[1..]).0;
        if xs[i] == Null {
          VivifyFreshReaches(inner[1..], last);
          FullyReachedStep(start.fields, inner, last, xs[i := c]);
        } else {
          VivifyChanges(xs[i], inner[1..], last);
          if c == xs[i] {
            assert xs[i := c] == xs;
            assert Lookup(start.fields, name) == Some(xs);
            AssignSame(start.fields, name);
          } else {
            FullyReachedStep(start.fields, inner, last, xs[i := c]);
          }
        }
      }
    }
  }

  /** Where the field test answers false, vivifying the field's index 0
      leaves the field holding exactly `[None]`. */
  lemma {:induction false} VivifyAbsent(start: Instance, inner: seq<Step>, name: string)
    requires FieldExistsAt(start, inner, name) == Ok(false)
    requires Vivify(start, Segs(inner, Segment(name, Some(0)))).1.None?
    ensures GetFieldAt(Vivify(start, Segs(inner, Segment(name, Some(0)))).0, inner, name) == Ok([Null])
    decreases |inner|
  {
    var last := Segment(name, Some(0));
    var segs := Segs(inner, last);
    var t := Vivify(start, segs).0;
    if inner == [] {
      VivifyEnds(start, last);
      LookupAssign(start.fields, name, Grown(start.fields, name, Some(0)), name);
    } else {
      var m, i := inner[0].name, inner[0].index;
      var xs := Grown(start.fields, m, Some(i));
      VivifyDescends(start, inner, last);
      var c := Vivify(Child(xs[i]), segs[1..]).0;
      LookupAssign(start.fields, m, xs[i := c], m);
      assert GetFieldAt(t, inner, name) == GetFieldAt(c, inner[1..], name);
      FieldAbsentStep(start, inner, name);
      VivifyAbsent(Child(xs[i]), inner[1..], name);
    }
  }

  /** A field the test found missing is missing as well below the dict or
      `None` the first step leads to, once that list is grown. */
  lemma FieldAbsentStep(start: Instance, inner: seq<Step>, name: string)
    requires start.Node? && inner != [] && FieldExistsAt(start, inner, name) == Ok(false)
    ensures var xs := Grown(start.fields, inner[0].name, Some(inner[0].index));
            inner[0].index < |xs| ==> FieldExistsAt(Child(xs[inner[0].index]), inner[1..], name) == Ok(false)
  {
    var m, i := inner[0].name, inner[0].index;
    var xs := Grown(start.fields, m, Some(i));
    if i < |xs| {
      FieldAbsentEmpty(inner[1..], name);
      match Lookup(start.fields, m) {
        case None =>
        case Some(ys) =>
          if i < |ys| {
            assert xs[i] == ys[i];
          }
      }
    }
  }

  /** A fresh `{}` holds no field at any depth. */
  lemma FieldAbsentEmpty(inner: seq<Step>, name: string)
    ensures FieldExistsAt(Node([]), inner, name) == Ok(false)
  {
  }
}
