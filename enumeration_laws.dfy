/** What `keys`, `leaves` and `values` promise: every instance is listed
    once under the path that reads it back, a dict's key comes right before
    the keys of everything below it, and `values()[i]` is the value at
    `keys()[i]`. */
module EnumerationLaws {
  import opened Results
  import opened Tree
  import opened Address
  import opened Traversal
  import opened Record
  import opened Enumeration

  // ---------------------------------------------------------------------
  // Where an entry comes from
  // ---------------------------------------------------------------------

  /** In a dict, the entry of any of its fields is found by name. */
  lemma LookupUnique(fs: seq<Field>, k: nat)
    requires UniqueNames(fs) && k < |fs|
    ensures Lookup(fs, fs[k].name) == Some(fs[k].insts)
  {
  }

  lemma {:induction false} InstEntriesMember(name: string, xs: seq<Instance>, e: Entry)
    requires e in InstEntries(name, xs)
    ensures exists i :: 0 <= i < |xs| && e in EntriesOf(Step(name, i), xs[i])
    decreases |xs|
  {
    var n := |xs| - 1;
    if e in InstEntries(name, xs[..n]) {
      InstEntriesMember(name, xs[..n], e);
      var i :| 0 <= i < n && e in EntriesOf(Step(name, i), xs[..n][i]);
      assert xs[..n][i] == xs[i];
    } else {
      assert e in EntriesOf(Step(name, n), xs[n]);
    }
  }

  /** Each entry is an instance of one field, or lies below one. */
  lemma {:induction false} EntriesMember(fs: seq<Field>, e: Entry)
    requires e in Entries(fs)
    ensures exists k, i :: 0 <= k < |fs| && 0 <= i < |fs[k].insts| && e in EntriesOf(Step(fs[k].name, i), fs[k].insts[i])
    decreases |fs|
  {
    var n := |fs| - 1;
    if e in Entries(fs[..n]) {
      EntriesMember(fs[..n], e);
      var k, i :| 0 <= k < n && 0 <= i < |fs[..n][k].insts| && e in EntriesOf(Step(fs[..n][k].name, i), fs[..n][k].insts[i]);
      assert fs[..n][k] == fs[k];
    } else {
      InstEntriesMember(fs[n].name, fs[n].insts, e);
    }
  }

  lemma {:induction false} InstEntriesContain(name: string, xs: seq<Instance>, i: nat, e: Entry)
    requires i < |xs| && e in EntriesOf(Step(name, i), xs[i])
    ensures e in InstEntries(name, xs)
    decreases |xs|
  {
    var n := |xs| - 1;
    if i < n {
      assert xs[..n][i] == xs[i];
      InstEntriesContain(name, xs[..n], i, e);
    }
  }

  /** Each instance of each field is listed, with what lies below it. */
  lemma {:induction false} EntriesContain(fs: seq<Field>, k: nat, i: nat, e: Entry)
    requires k < |fs| && i < |fs[k].insts| && e in EntriesOf(Step(fs[k].name, i), fs[k].insts[i])
    ensures e in Entries(fs)
    decreases |fs|
  {
    var n := |fs| - 1;
    if k < n {
      assert fs[..n][k] == fs[k];
      EntriesContain(fs[..n], k, i, e);
    } else {
      InstEntriesContain(fs[n].name, fs[n].insts, i, e);
    }
  }

  // ---------------------------------------------------------------------
  // Exactly the instances of the record
  // ---------------------------------------------------------------------

  /** Every listed path reads back its instance. */
  lemma {:induction false} EntriesResolve(fs: seq<Field>, e: Entry)
    requires WellFormed(Node(fs)) && e in Entries(fs)
    ensures Follow(Node(fs), e.path) == Ok(e.inst)
    decreases fs
  {
    EntriesMember(fs, e);
    var k, i :| 0 <= k < |fs| && 0 <= i < |fs[k].insts| && e in EntriesOf(Step(fs[k].name, i), fs[k].insts[i]);
    var st := Step(fs[k].name, i);
    var x := fs[k].insts[i];
    LookupUnique(fs, k);
    assert Follow(Node(fs), [st]) == Follow(x, []);
    if e != Entry([st], x) {
      var sub := Entries(x.fields);
      var u := Under([st], sub);
      var j :| 0 <= j < |u| && u[j] == e;
      assert x in fs[k].insts && fs[k] in fs;
      EntriesResolve(x.fields, sub[j]);
      FollowAppend(Node(fs), [st], sub[j].path);
    }
  }

  /** Every path that reads an instance is listed, with that instance. */
  lemma {:induction false} FollowCovered(fs: seq<Field>, p: seq<Step>)
    requires |p| >= 1 && Follow(Node(fs), p).Ok?
    ensures Entry(p, Follow(Node(fs), p).value) in Entries(fs)
    decreases |p|
  {
    var st := p[0];
    var xs := Lookup(fs, st.name).value;
    var k :| 0 <= k < |fs| && fs[k] == Field(st.name, xs);
    var x := xs[st.index];
    var v := Follow(Node(fs), p).value;
    assert Follow(Node(fs), p) == Follow(x, p[1..]);
    assert st == Step(fs[k].name, st.index);
    if |p| == 1 {
      assert p == [st];
      assert Entry(p, v) in EntriesOf(st, x);
      EntriesContain(fs, k, st.index, Entry(p, v));
    } else {
      FollowCovered(x.fields, p[1..]);
      var sub := Entries(x.fields);
      var j :| 0 <= j < |sub| && sub[j] == Entry(p[1..], v);
      assert [st] + p[1..] == p;
      assert Under([st], sub)[j] == Entry(p, v);
      assert Entry(p, v) in EntriesOf(st, x);
      EntriesContain(fs, k, st.index, Entry(p, v));
    }
  }

  /** keys() lists exactly the paths that read an instance of the record. */
  lemma KeysExactly(fs: seq<Field>, p: seq<Step>, v: Instance)
    requires WellFormed(Node(fs))
    ensures Entry(p, v) in Entries(fs) <==> |p| >= 1 && Follow(Node(fs), p) == Ok(v)
  {
    if Entry(p, v) in Entries(fs) {
      EntriesResolve(fs, Entry(p, v));
    }
    if |p| >= 1 && Follow(Node(fs), p) == Ok(v) {
      FollowCovered(fs, p);
    }
  }

  /** Every listed key is one `value_exists` answers true for. */
  lemma KeysExist(fs: seq<Field>, e: Entry)
    requires WellFormed(Node(fs)) && e in Entries(fs)
    ensures ValueExistsAt(Node(fs), e.path) == Ok(true)
  {
    EntriesResolve(fs, e);
    ValueExistsMatchesGet(Node(fs), e.path);
  }

  /** leaves() lists exactly the instances that are not dicts, each with
      the path that reads it. */
  lemma LeavesExactly(fs: seq<Field>, p: seq<Step>, v: Instance)
    requires WellFormed(Node(fs))
    ensures Entry(p, v) in LeafEntries(Entries(fs)) <==> |p| >= 1 && Follow(Node(fs), p) == Ok(v) && !v.Node?
  {
    KeysExactly(fs, p, v);
  }

  // ---------------------------------------------------------------------
  // A dict's key, then everything below it
  // ---------------------------------------------------------------------

  /** The entry at `j`, when it is a dict, is followed at once by the
      entries below it, in their own order. */
  predicate ParentFirstAt(es: seq<Entry>, j: nat)
    requires j < |es|
  {
    es[j].inst.Node? ==>
      var d := Entries(es[j].inst.fields);
      j + 1 + |d| <= |es| && es[j + 1 .. j + 1 + |d|] == Under(es[j].path, d)
  }

  predicate ParentFirst(es: seq<Entry>)
  {
    forall j: nat :: j < |es| ==> ParentFirstAt(es, j)
  }

  lemma ParentFirstLeft(a: seq<Entry>, b: seq<Entry>, j: nat)
    requires j < |a| && ParentFirstAt(a, j)
    ensures ParentFirstAt(a + b, j)
  {
    assert (a + b)[j] == a[j];
    if a[j].inst.Node? {
      var d := Entries(a[j].inst.fields);
      assert (a + b)[j + 1 .. j + 1 + |d|] == a[j + 1 .. j + 1 + |d|];
    }
  }

  lemma ParentFirstRight(a: seq<Entry>, b: seq<Entry>, j: nat)
    requires j < |b| && ParentFirstAt(b, j)
    ensures ParentFirstAt(a + b, |a| + j)
  {
    assert (a + b)[|a| + j] == b[j];
    if b[j].inst.Node? {
      var d := Entries(b[j].inst.fields);
      assert (a + b)[|a| + j + 1 .. |a| + j + 1 + |d|] == b[j + 1 .. j + 1 + |d|];
    }
  }

  lemma ParentFirstAppend(a: seq<Entry>, b: seq<Entry>)
    requires ParentFirst(a) && ParentFirst(b)
    ensures ParentFirst(a + b)
  {
    forall j: nat | j < |a + b|
      ensures ParentFirstAt(a + b, j)
    {
      if j < |a| {
        ParentFirstLeft(a, b, j);
      } else {
        ParentFirstRight(a, b, j - |a|);
      }
    }
  }

  lemma UnderUnder(p: seq<Step>, q: seq<Step>, d: seq<Entry>)
    ensures Under(p, Under(q, d)) == Under(p + q, d)
  {
    forall i | 0 <= i < |d|
      ensures p + (q + d[i].path) == (p + q) + d[i].path
    {
    }
  }

  lemma ParentFirstUnder(p: seq<Step>, es: seq<Entry>)
    requires ParentFirst(es)
    ensures ParentFirst(Under(p, es))
  {
    var u := Under(p, es);
    forall j: nat | j < |u|
      ensures ParentFirstAt(u, j)
    {
      assert ParentFirstAt(es, j);
      if es[j].inst.Node? {
        var d := Entries(es[j].inst.fields);
        assert u[j + 1 .. j + 1 + |d|] == Under(p, es[j + 1 .. j + 1 + |d|]);
        UnderUnder(p, es[j].path, d);
      }
    }
  }

  /** keys() writes a dict instance's key, then at once the keys of
      everything below it, before moving on. */
  lemma {:induction false} KeysParentFirst(fs: seq<Field>)
    ensures ParentFirst(Entries(fs))
    decreases fs, 2
  {
    if fs != [] {
      var n := |fs| - 1;
      KeysParentFirst(fs[..n]);
      InstEntriesParentFirst(fs[n].name, fs[n].insts);
      ParentFirstAppend(Entries(fs[..n]), InstEntries(fs[n].name, fs[n].insts));
    }
  }

  lemma {:induction false} InstEntriesParentFirst(name: string, xs: seq<Instance>)
    ensures ParentFirst(InstEntries(name, xs))
    decreases xs, 1
  {
    if xs != [] {
      var n := |xs| - 1;
      InstEntriesParentFirst(name, xs[..n]);
      EntriesOfParentFirst(Step(name, n), xs[n]);
      ParentFirstAppend(InstEntries(name, xs[..n]), EntriesOf(Step(name, n), xs[n]));
    }
  }

  lemma {:induction false} EntriesOfParentFirst(st: Step, x: Instance)
    ensures ParentFirst(EntriesOf(st, x))
    decreases x, 0
  {
    var es := EntriesOf(st, x);
    var head := [Entry([st], x)];
    if x.Node? {
      var u := Under([st], Entries(x.fields));
      assert es == head + u;
      KeysParentFirst(x.fields);
      ParentFirstUnder([st], Entries(x.fields));
      forall j: nat | j < |es|
        ensures ParentFirstAt(es, j)
      {
        if j == 0 {
          assert es[1 .. 1 + |u|] == u;
        } else {
          ParentFirstRight(head, u, j - 1);
        }
      }
    } else {
      assert es == head;
    }
  }

  // ---------------------------------------------------------------------
  // Each instance listed once
  // ---------------------------------------------------------------------

  /** No two positions of a listing share a path. */
  predicate DistinctPaths(es: seq<Entry>)
  {
    forall i, j :: 0 <= i < j < |es| ==> es[i].path != es[j].path
  }

  /** Two listings without repeats, whose paths never meet, concatenate
      without repeats. */
  lemma DistinctAppend(a: seq<Entry>, b: seq<Entry>)
    requires DistinctPaths(a) && DistinctPaths(b)
    requires forall e, f :: e in a && f in b ==> e.path != f.path
    ensures DistinctPaths(a + b)
  {
    forall i, j | 0 <= i < j < |a + b|
      ensures (a + b)[i].path != (a + b)[j].path
    {
      if j < |a| {
        assert (a + b)[i] == a[i] && (a + b)[j] == a[j];
      } else if i >= |a| {
        assert (a + b)[i] == b[i - |a|] && (a + b)[j] == b[j - |a|];
      } else {
        assert (a + b)[i] == a[i] && (a + b)[j] == b[j - |a|];
        assert a[i] in a && b[j - |a|] in b;
      }
    }
  }

  /** Prefixing every path with the same steps keeps them apart. */
  lemma DistinctUnder(p: seq<Step>, es: seq<Entry>)
    requires DistinctPaths(es)
    ensures DistinctPaths(Under(p, es))
  {
    var u := Under(p, es);
    forall i, j | 0 <= i < j < |u|
      ensures u[i].path != u[j].path
    {
      assert u[i].path[|p|..] == es[i].path;
      assert u[j].path[|p|..] == es[j].path;
    }
  }

  /** Every entry of an instance's listing starts with the step that
      reaches the instance. */
  lemma EntriesOfFirst(st: Step, x: Instance, e: Entry)
    requires e in EntriesOf(st, x)
    ensures e.path[0] == st
  {
    if e != Entry([st], x) {
      var u := Under([st], Entries(x.fields));
      assert EntriesOf(st, x) == [Entry([st], x)] + u;
      var j :| 0 <= j < |u| && u[j] == e;
    }
  }

  /** Every entry of a field's listing starts with one of its instances. */
  lemma InstEntriesFirst(name: string, xs: seq<Instance>, e: Entry)
    requires e in InstEntries(name, xs)
    ensures e.path[0].name == name && e.path[0].index < |xs|
  {
    InstEntriesMember(name, xs, e);
    var i :| 0 <= i < |xs| && e in EntriesOf(Step(name, i), xs[i]);
    EntriesOfFirst(Step(name, i), xs[i], e);
  }

  /** In a record whose dicts have each key once, `keys()` lists every
      path once: no two positions of the listing share a path. */
  lemma {:induction false} PathsListedOnce(fs: seq<Field>)
    requires WellFormed(Node(fs))
    ensures DistinctPaths(Entries(fs))
    decreases fs, 2
  {
    if fs != [] {
      var n := |fs| - 1;
      var a := Entries(fs[..n]);
      var b := InstEntries(fs[n].name, fs[n].insts);
      assert WellFormed(Node(fs[..n])) by {
        forall k | 0 <= k < n ensures fs[..n][k] == fs[k] { }
      }
      PathsListedOnce(fs[..n]);
      assert fs[n] in fs;
      InstPathsListedOnce(fs[n].name, fs[n].insts);
      forall e, f | e in a && f in b
        ensures e.path != f.path
      {
        EntriesMember(fs[..n], e);
        var k, i :| 0 <= k < n && 0 <= i < |fs[..n][k].insts| && e in EntriesOf(Step(fs[..n][k].name, i), fs[..n][k].insts[i]);
        EntriesOfFirst(Step(fs[..n][k].name, i), fs[..n][k].insts[i], e);
        InstEntriesFirst(fs[n].name, fs[n].insts, f);
        assert fs[..n][k] == fs[k];
      }
      DistinctAppend(a, b);
    }
  }

  lemma {:induction false} InstPathsListedOnce(name: string, xs: seq<Instance>)
    requires forall j :: 0 <= j < |xs| ==> WellFormed(xs[j])
    ensures DistinctPaths(InstEntries(name, xs))
    decreases xs, 1
  {
    if xs != [] {
      var n := |xs| - 1;
      var a := InstEntries(name, xs[..n]);
      var b := EntriesOf(Step(name, n), xs[n]);
      InstPathsListedOnce(name, xs[..n]);
      assert xs[n] in xs;
      EntryPathsListedOnce(Step(name, n), xs[n]);
      forall e, f | e in a && f in b
        ensures e.path != f.path
      {
        InstEntriesFirst(name, xs[..n], e);
        EntriesOfFirst(Step(name, n), xs[n], f);
      }
      DistinctAppend(a, b);
    }
  }

  lemma {:induction false} EntryPathsListedOnce(st: Step, x: Instance)
    requires WellFormed(x)
    ensures DistinctPaths(EntriesOf(st, x))
    decreases x, 0
  {
    var head := [Entry([st], x)];
    if x.Node? {
      var d := Entries(x.fields);
      var u := Under([st], d);
      PathsListedOnce(x.fields);
      DistinctUnder([st], d);
      forall e, f | e in head && f in u
        ensures e.path != f.path
      {
        var j :| 0 <= j < |u| && u[j] == f;
        assert d[j] in d;
      }
      DistinctAppend(head, u);
      assert EntriesOf(st, x) == head + u;
    }
  }

  /** With every field well named, `keys()` writes no key twice. (A field
      whose name ends in a digit can collide: instance 0 of `v2` and
      instance 20 of `v` are both written `v20`.) */
  lemma KeysListedOnce(data: seq<Field>)
    requires WellFormed(Node(data)) && WellNamedPaths(Entries(data))
    ensures var ks := KeysOf(None, Entries(data));
            forall i, j :: 0 <= i < j < |ks| ==> ks[i] != ks[j]
  {
    var es := Entries(data);
    var ks := KeysOf(None, es);
    PathsListedOnce(data);
    forall i, j | 0 <= i < j < |ks|
      ensures ks[i] != ks[j]
    {
      assert es[i] in es && es[j] in es;
      ParseFormatPath(es[i].path);
      ParseFormatPath(es[j].path);
    }
  }

  // ---------------------------------------------------------------------
  // values()
  // ---------------------------------------------------------------------

  /** Every field on the paths of some entries is well named. */
  predicate WellNamedPaths(es: seq<Entry>)
  {
    forall e :: e in es ==> forall i :: 0 <= i < |e.path| ==> WellNamed(e.path[i].name)
  }

  /** A key written by keys() ends in the digits of its last index. */
  lemma FormatPathEndsInDigit(p: seq<Step>)
    requires |p| >= 1
    ensures EndsInDigit(FormatPath(p))
  {
    var n := |p| - 1;
    assert p[..n] + [p[n]] == p;
    FormatPathSnoc(p[..n], p[n]);
  }

  /** `self[key]` on a listed key of well-named fields gives its instance. */
  lemma KeyReadsBack(data: seq<Field>, e: Entry)
    requires WellFormed(Node(data)) && e in Entries(data)
    requires forall i :: 0 <= i < |e.path| ==> WellNamed(e.path[i].name)
    ensures GetItemOf(data, Dotted(Label(None, e.path))) == Ok(e.inst)
  {
    var k := FormatPath(e.path);
    FormatPathEndsInDigit(e.path);
    ParseFormatPath(e.path);
    EntriesResolve(data, e);
    assert NamesValue(Dotted(k)) == Ok(true);
    assert ValueAddress(Dotted(k)) == Ok(e.path);
  }

  lemma {:induction false} ValuesOfEntries(data: seq<Field>, es: seq<Entry>)
    requires WellFormed(Node(data)) && WellNamedPaths(es)
    requires forall e :: e in es ==> e in Entries(data)
    ensures ValuesOf(data, KeysOf(None, es)) == Ok(Insts(es))
    decreases |es|
  {
    if es != [] {
      var ks := KeysOf(None, es);
      assert ks[0] == Label(None, es[0].path);
      assert ks[1..] == KeysOf(None, es[1..]);
      assert Insts(es) == [es[0].inst] + Insts(es[1..]);
      assert es[0] in es;
      ValuesOfEntries(data, es[1..]);
      KeyReadsBack(data, es[0]);
    }
  }

  /** In a record whose fields are all well named, `values()[i]` is the
      instance at `keys()[i]`, and nothing raises. */
  lemma ValuesMatchKeys(data: seq<Field>)
    requires WellFormed(Node(data)) && WellNamedPaths(Entries(data))
    ensures ValuesOf(data, KeysOf(None, Entries(data))) == Ok(Insts(Entries(data)))
  {
    ValuesOfEntries(data, Entries(data));
  }

  /** `values()` that succeeds lists what each key reads. */
  lemma {:induction false} ValuesOfReads(data: seq<Field>, ks: seq<string>)
    requires ValuesOf(data, ks).Ok?
    ensures |ValuesOf(data, ks).value| == |ks|
    ensures forall i :: 0 <= i < |ks| ==> GetItemOf(data, Dotted(ks[i])) == Ok(ValuesOf(data, ks).value[i])
    decreases |ks|
  {
    if ks != [] {
      var head := GetItemOf(data, Dotted(ks[0]));
      var rest := ValuesOf(data, ks[1..]);
      assert head.Ok? && rest.Ok? && ValuesOf(data, ks).value == [head.value] + rest.value;
      ValuesOfReads(data, ks[1..]);
      assert forall i :: 1 <= i < |ks| ==> ks[i] == ks[1..][i - 1];
    }
  }

  /** `values()` raises exactly when some key fails to read, and then
      raises what the first such key raises. */
  lemma {:induction false} ValuesOfRaises(data: seq<Field>, ks: seq<string>, i: nat)
    requires i < |ks| && GetItemOf(data, Dotted(ks[i])).Err?
    requires forall j :: 0 <= j < i ==> GetItemOf(data, Dotted(ks[j])).Ok?
    ensures ValuesOf(data, ks) == Err(GetItemOf(data, Dotted(ks[i])).error)
    decreases i
  {
    if i > 0 {
      var tail := ks[1..];
      forall j | 0 <= j < i - 1
        ensures GetItemOf(data, Dotted(tail[j])).Ok?
      {
        assert tail[j] == ks[j + 1];
      }
      assert tail[i - 1] == ks[i];
      ValuesOfRaises(data, tail, i - 1);
      assert GetItemOf(data, Dotted(ks[0])).Ok?;
    }
  }

  /** A field whose name ends in a digit breaks values(): the key "v20"
      written for instance 0 of "v2" reads back as instance 20 of "v". */
  lemma ValuesDigitNameQuirk()
    ensures var data := [Field("v2", [Leaf(Int(1))])];
            KeysOf(None, Entries(data)) == ["v20"] &&
            ValuesOf(data, ["v20"]) == Err(KeyError)
  {
    DigitNameKeys();
    DigitNameRead();
    assert ["v20"][1..] == [];
  }

  /** keys() writes instance 0 of `v2` as "v20". */
  lemma DigitNameKeys()
    ensures KeysOf(None, Entries([Field("v2", [Leaf(Int(1))])])) == ["v20"]
  {
    var data := [Field("v2", [Leaf(Int(1))])];
    assert InstEntries("v2", [Leaf(Int(1))]) == [Entry([Step("v2", 0)], Leaf(Int(1)))];
    assert Entries(data) == [Entry([Step("v2", 0)], Leaf(Int(1)))];
    assert FormatPath([Step("v2", 0)]) == "v20";
  }

  /** ... and reading "v20" back asks for instance 20 of `v`. */
  lemma DigitNameRead()
    ensures GetItemOf([Field("v2", [Leaf(Int(1))])], Dotted("v20")) == Err(KeyError)
  {
    var data := [Field("v2", [Leaf(Int(1))])];
    DigitEndingNameMisparses();
    SplitJoin(["v20"]);
    assert Split("v20") == ["v20"];
    assert ValuePath(["v20"]) == [Step("v", 20)];
    assert Follow(Node(data), [Step("v", 20)]) == Err(KeyError);
  }
}
