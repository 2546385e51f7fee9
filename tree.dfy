/** The record's data: a dict from field name to a list of instances,
    each instance a leaf value or a nested dict of the same shape; and
    the Python dict and list operations the record performs on it. */
module Tree {
  import opened Results

  /** Leaf values the record stores without looking inside them. */
  datatype Scalar = Str(s: string) | Int(i: int) | Float(f: real) | Bool(b: bool)

  /** One instance of a field: `None`, a scalar, a Python list used as a
      value, or a nested dict (`Node`), whose fields keep insertion order. */
  datatype Instance =
    | Null
    | Leaf(scalar: Scalar)
    | List(items: seq<Instance>)
    | Node(fields: seq<Field>)

  /** One dict entry: a field name and its ordered instances. */
  datatype Field = Field(name: string, insts: seq<Instance>)

  // ---------------------------------------------------------------------
  // Dicts as association lists
  // ---------------------------------------------------------------------

  /** `d.get(name)`: the instances of the first entry called `name`. */
  function Lookup(fs: seq<Field>, name: string): (r: Option<seq<Instance>>)
    ensures r.None? <==> forall i :: 0 <= i < |fs| ==> fs[i].name != name
    ensures r.Some? ==> exists i :: 0 <= i < |fs| && fs[i] == Field(name, r.value)
  {
    if fs == [] then None
    else if fs[0].name == name then Some(fs[0].insts)
    else
      var r := Lookup(fs[1..], name);
      assert forall i :: 1 <= i < |fs| ==> fs[i] == fs[1..][i - 1];
      r
  }

  /** `d[name] = insts`: replaces the entry in place, or appends a new one. */
  function Assign(fs: seq<Field>, name: string, insts: seq<Instance>): seq<Field>
  {
    if fs == [] then [Field(name, insts)]
    else if fs[0].name == name then [Field(name, insts)] + fs[1..]
    else [fs[0]] + Assign(fs[1..], name, insts)
  }

  /** `del d[name]`. */
  function Delete(fs: seq<Field>, name: string): seq<Field>
  {
    if fs == [] then []
    else if fs[0].name == name then fs[1..]
    else [fs[0]] + Delete(fs[1..], name)
  }

  /** The names of a dict, in insertion order. */
  function Names(fs: seq<Field>): seq<string>
  {
    seq(|fs|, i requires 0 <= i < |fs| => fs[i].name)
  }

  /** A dict has each key once. */
  predicate UniqueNames(fs: seq<Field>)
  {
    forall i, j :: 0 <= i < j < |fs| ==> fs[i].name != fs[j].name
  }

  /** Every dict in the tree has each key once: what makes an association
      list a faithful picture of a Python dict. */
  predicate WellFormed(x: Instance)
  {
    match x
    case Node(fs) => UniqueNames(fs) && FieldsWellFormed(fs)
    case List(xs) => forall j :: 0 <= j < |xs| ==> WellFormed(xs[j])
    case _ => true
  }

  predicate FieldsWellFormed(fs: seq<Field>)
  {
    forall i, j :: 0 <= i < |fs| && 0 <= j < |fs[i].insts| ==> WellFormed(fs[i].insts[j])
  }

  predicate InstsWellFormed(xs: seq<Instance>)
  {
    forall j :: 0 <= j < |xs| ==> WellFormed(xs[j])
  }

  /** Assigning a key reads back, and leaves every other key as it was. */
  lemma {:induction false} LookupAssign(fs: seq<Field>, name: string, insts: seq<Instance>, other: string)
    ensures Lookup(Assign(fs, name, insts), name) == Some(insts)
    ensures other != name ==> Lookup(Assign(fs, name, insts), other) == Lookup(fs, other)
  {
    if fs != [] && fs[0].name != name {
      LookupAssign(fs[1..], name, insts, other);
      assert Assign(fs, name, insts)[1..] == Assign(fs[1..], name, insts);
    }
  }

  /** Deleting a key from a dict removes it and leaves every other key. */
  lemma {:induction false} LookupDelete(fs: seq<Field>, name: string, other: string)
    ensures UniqueNames(fs) ==> Lookup(Delete(fs, name), name).None?
    ensures other != name ==> Lookup(Delete(fs, name), other) == Lookup(fs, other)
  {
    if fs != [] {
      assert UniqueNames(fs) ==> UniqueNames(fs[1..]);
      if fs[0].name == name {
        if UniqueNames(fs) {
          forall i | 0 <= i < |fs[1..]| ensures fs[1..][i].name != name {
            assert fs[1..][i] == fs[i + 1];
          }
        }
      } else {
        LookupDelete(fs[1..], name, other);
        assert Delete(fs, name)[1..] == Delete(fs[1..], name);
      }
    }
  }

  /** Assigning an existing key keeps the order of the keys; assigning a new
      key appends it. */
  lemma {:induction false} NamesAssign(fs: seq<Field>, name: string, insts: seq<Instance>)
    ensures Lookup(fs, name).Some? ==> Names(Assign(fs, name, insts)) == Names(fs)
    ensures Lookup(fs, name).None? ==> Names(Assign(fs, name, insts)) == Names(fs) + [name]
  {
    if fs != [] && fs[0].name != name {
      NamesAssign(fs[1..], name, insts);
      assert Names(fs) == [fs[0].name] + Names(fs[1..]);
      assert Names(Assign(fs, name, insts)) == [fs[0].name] + Names(Assign(fs[1..], name, insts));
    } else if fs != [] {
      assert Names(fs) == [fs[0].name] + Names(fs[1..]);
      assert Names(Assign(fs, name, insts)) == [name] + Names(fs[1..]);
    }
  }

  /** Assigning well-formed instances keeps a dict well formed. */
  lemma {:induction false} AssignWellFormed(fs: seq<Field>, name: string, insts: seq<Instance>)
    requires UniqueNames(fs) && FieldsWellFormed(fs) && InstsWellFormed(insts)
    ensures UniqueNames(Assign(fs, name, insts)) && FieldsWellFormed(Assign(fs, name, insts))
  {
    if fs != [] && fs[0].name != name {
      AssignWellFormed(fs[1..], name, insts);
      NamesAssign(fs[1..], name, insts);
      var gs := Assign(fs, name, insts);
      var rest := Assign(fs[1..], name, insts);
      assert gs == [fs[0]] + rest;
      forall i | 0 < i < |gs| ensures gs[i].name != fs[0].name {
        assert gs[i].name == Names(rest)[i - 1];
        if Lookup(fs[1..], name).Some? {
          assert Names(rest)[i - 1] == fs[1..][i - 1].name == fs[i].name;
        } else if i - 1 < |fs[1..]| {
          assert Names(rest)[i - 1] == Names(fs[1..])[i - 1] == fs[i].name;
        }
      }
    }
  }

  /** Deleting a key keeps a dict well formed. */
  lemma {:induction false} DeleteWellFormed(fs: seq<Field>, name: string)
    requires UniqueNames(fs) && FieldsWellFormed(fs)
    ensures UniqueNames(Delete(fs, name)) && FieldsWellFormed(Delete(fs, name))
  {
    if fs != [] && fs[0].name != name {
      DeleteWellFormed(fs[1..], name);
      var rest := Delete(fs[1..], name);
      DeleteSubset(fs[1..], name);
      forall i | 0 <= i < |rest| ensures rest[i].name != fs[0].name {
        assert rest[i] in fs[1..];
        var k :| 0 <= k < |fs[1..]| && rest[i] == fs[1..][k];
        assert fs[1..][k] == fs[k + 1];
      }
      assert Delete(fs, name) == [fs[0]] + rest;
    }
  }

  lemma {:induction false} DeleteSubset(fs: seq<Field>, name: string)
    ensures forall f :: f in Delete(fs, name) ==> f in fs
  {
    if fs != [] && fs[0].name != name {
      DeleteSubset(fs[1..], name);
      assert Delete(fs, name) == [fs[0]] + Delete(fs[1..], name);
    }
  }

  // ---------------------------------------------------------------------
  // What Python does when the record treats an instance as a dict
  // ---------------------------------------------------------------------

  /** `sub` occurs in `s` (Python's `sub in s` for strings). */
  predicate IsSubstring(sub: string, s: string)
  {
    exists i | 0 <= i <= |s| - |sub| :: OccursAt(sub, s, i)
  }

  predicate OccursAt(sub: string, s: string, i: nat)
  {
    i + |sub| <= |s| && s[i..i + |sub|] == sub
  }

  /** `name in start`: key membership for a dict, substring test for a
      string, element test for a list; any other value raises TypeError. */
  function Contains(start: Instance, name: string): (r: Result<bool>)
    ensures start.Node? ==> r == Ok(Lookup(start.fields, name).Some?)
    ensures r.Err? <==> !(start.Node? || start.List? || (start.Leaf? && start.scalar.Str?))
    ensures r.Err? ==> r.error == TypeError
  {
    match start
    case Node(fs) => Ok(Lookup(fs, name).Some?)
    case Leaf(Str(s)) => Ok(IsSubstring(name, s))
    case List(xs) => Ok(Leaf(Str(name)) in xs)
    case _ => Err(TypeError)
  }

  /** `start[name]`: a dict's entry (KeyError when absent); any other
      value cannot be indexed by a string (TypeError). */
  function Subscript(start: Instance, name: string): (r: Result<seq<Instance>>)
    ensures r.Ok? <==> start.Node? && Lookup(start.fields, name).Some?
    ensures r.Ok? ==> r.value == Lookup(start.fields, name).value
    ensures r.Err? ==> r.error == (if start.Node? then KeyError else TypeError)
  {
    match start
    case Node(fs) =>
      (match Lookup(fs, name)
       case Some(xs) => Ok(xs)
       case None => Err(KeyError))
    case _ => Err(TypeError)
  }

  /** `xs[i]`, raising IndexError when out of range. */
  function At(xs: seq<Instance>, i: nat): (r: Result<Instance>)
    ensures r.Ok? <==> i < |xs|
    ensures r.Ok? ==> r.value == xs[i]
    ensures r.Err? ==> r.error == IndexError
  {
    if i < |xs| then Ok(xs[i]) else Err(IndexError)
  }

  /** `[None] * n`. */
  function Nulls(n: nat): (r: seq<Instance>)
    ensures |r| == n && forall i :: 0 <= i < n ==> r[i] == Null
  {
    seq(n, i => Null)
  }
}
