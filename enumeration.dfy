/** `keys`, `leaves` and `values`: listing every instance of the record.
    The listing is specified as the sequence of entries (path, instance) in
    the order the nested loops visit them: fields in insertion order, each
    field's instances in ascending index, and a dict instance followed at
    once by everything below it. */
module Enumeration {
  import opened Results
  import opened Tree
  import opened Address
  import opened Traversal
  import opened Record

  /** One instance of the tree: the steps that reach it, and the instance. */
  datatype Entry = Entry(path: seq<Step>, inst: Instance)

  /** Entries of a sub-dict, seen from its parent by prefixing `p`. */
  function Under(p: seq<Step>, es: seq<Entry>): seq<Entry>
  {
    seq(|es|, i requires 0 <= i < |es| => Entry(p + es[i].path, es[i].inst))
  }

  /** Every instance below the dict `fs`, in the order keys() lists them. */
  function Entries(fs: seq<Field>): (es: seq<Entry>)
    ensures forall e :: e in es ==> |e.path| >= 1
    decreases fs, 2
  {
    if fs == [] then []
    else Entries(fs[..|fs| - 1]) + InstEntries(fs[|fs| - 1].name, fs[|fs| - 1].insts)
  }

  /** The entries of the instances of field `name`, index by index. */
  function InstEntries(name: string, xs: seq<Instance>): (es: seq<Entry>)
    ensures forall e :: e in es ==> |e.path| >= 1
    decreases xs, 1
  {
    if xs == [] then []
    else InstEntries(name, xs[..|xs| - 1]) + EntriesOf(Step(name, |xs| - 1), xs[|xs| - 1])
  }

  /** The instance reached by `st`, then, if it is a dict, its own entries. */
  function EntriesOf(st: Step, x: Instance): (es: seq<Entry>)
    ensures |es| >= 1 && es[0] == Entry([st], x)
    ensures forall e :: e in es ==> |e.path| >= 1
    decreases x, 0
  {
    [Entry([st], x)] + if x.Node? then Under([st], Entries(x.fields)) else []
  }

  /** The key text for a path: `".".join([init_path, x + str(i)])` applied
      step by step, starting bare when there is no `init_path`. */
  function Label(initPath: Option<string>, p: seq<Step>): string
  {
    match initPath
    case None => FormatPath(p)
    case Some(ip) => ip + "." + FormatPath(p)
  }

  /** One step of that: the key for instance `i` of field `x`. */
  function Extend(initPath: Option<string>, segment: string): string
  {
    match initPath
    case None => segment
    case Some(ip) => ip + "." + segment
  }

  /** The keys listed for some entries. */
  function KeysOf(initPath: Option<string>, es: seq<Entry>): seq<string>
  {
    seq(|es|, i requires 0 <= i < |es| => Label(initPath, es[i].path))
  }

  /** The entries whose instance is not a dict, in the same order. */
  function LeafEntries(es: seq<Entry>): (r: seq<Entry>)
    ensures forall e :: e in r <==> e in es && !e.inst.Node?
  {
    if es == [] then []
    else LeafEntries(es[..|es| - 1]) + if es[|es| - 1].inst.Node? then [] else [es[|es| - 1]]
  }

  /** The `(key, value)` pairs listed for some entries. */
  function PairsOf(initPath: Option<string>, es: seq<Entry>): seq<(string, Instance)>
  {
    seq(|es|, i requires 0 <= i < |es| => (Label(initPath, es[i].path), es[i].inst))
  }

  /** `values()`: `self[x]` for each key in turn; the first to raise stops it. */
  function ValuesOf(data: seq<Field>, ks: seq<string>): Result<seq<Instance>>
  {
    if ks == [] then Ok([])
    else
      var v :- GetItemOf(data, Dotted(ks[0]));
      var vs :- ValuesOf(data, ks[1..]);
      Ok([v] + vs)
  }

  /** The values already collected, then those of the remaining keys. */
  function Then(vs: seq<Instance>, r: Result<seq<Instance>>): Result<seq<Instance>>
  {
    match r
    case Ok(rest) => Ok(vs + rest)
    case Err(e) => Err(e)
  }

  /** The instances of some entries. */
  function Insts(es: seq<Entry>): seq<Instance>
  {
    seq(|es|, i requires 0 <= i < |es| => es[i].inst)
  }

  // ---------------------------------------------------------------------
  // The loops
  // ---------------------------------------------------------------------

  /** `keys(start, init_path)`: the outer loop, over the fields. */
  method KeysFrom(start: seq<Field>, initPath: Option<string>) returns (result: seq<string>)
    ensures result == KeysOf(initPath, Entries(start))
    decreases start, 1
  {
    result := [];
    var k := 0;
    while k < |start|
      invariant 0 <= k <= |start|
      invariant result == KeysOf(initPath, Entries(start[..k]))
    {
      var x := start[k];
      assert x in start;
      var more := InstKeysFrom(x.name, x.insts, initPath);
      EntriesSnoc(start, k);
      KeysOfAppend(initPath, Entries(start[..k]), InstEntries(x.name, x.insts));
      result := result + more;
      k := k + 1;
    }
    assert start[..k] == start;
  }

  /** The inner loop of `keys`, over the instances of field `name`: each
      instance's key, then the keys below it when it is a dict. */
  method InstKeysFrom(name: string, xs: seq<Instance>, initPath: Option<string>) returns (result: seq<string>)
    ensures result == KeysOf(initPath, InstEntries(name, xs))
    decreases xs, 0
  {
    result := [];
    var i := 0;
    while i < |xs|
      invariant 0 <= i <= |xs|
      invariant result == KeysOf(initPath, InstEntries(name, xs[..i]))
    {
      var y := xs[i];
      var path := Extend(initPath, FormatSegment(name, i));
      ghost var st := Step(name, i);
      InstEntriesSnoc(name, xs, i);
      KeysOfAppend(initPath, InstEntries(name, xs[..i]), EntriesOf(st, y));
      KeysOfEntriesOf(initPath, st, y);
      ghost var done := result;
      var added := [path];
      if y.Node? {
        assert y in xs;
        var sub := KeysFrom(y.fields, Some(path));
        added := added + sub;
      }
      AppendAssoc(done, [path], added[1..]);
      result := result + added;
      i := i + 1;
    }
    assert xs[..i] == xs;
  }

  /** `leaves(start, init_path)`: the outer loop, over the fields. */
  method LeavesFrom(start: seq<Field>, initPath: Option<string>) returns (result: seq<(string, Instance)>)
    ensures result == PairsOf(initPath, LeafEntries(Entries(start)))
    decreases start, 1
  {
    result := [];
    var k := 0;
    while k < |start|
      invariant 0 <= k <= |start|
      invariant result == PairsOf(initPath, LeafEntries(Entries(start[..k])))
    {
      var x := start[k];
      assert x in start;
      var more := InstLeavesFrom(x.name, x.insts, initPath);
      EntriesSnoc(start, k);
      LeafEntriesAppend(Entries(start[..k]), InstEntries(x.name, x.insts));
      PairsOfAppend(initPath, LeafEntries(Entries(start[..k])), LeafEntries(InstEntries(x.name, x.insts)));
      result := result + more;
      k := k + 1;
    }
    assert start[..k] == start;
  }

  /** The inner loop of `leaves`: a pair for each instance that is not a
      dict, and the pairs below each one that is. */
  method InstLeavesFrom(name: string, xs: seq<Instance>, initPath: Option<string>) returns (result: seq<(string, Instance)>)
    ensures result == PairsOf(initPath, LeafEntries(InstEntries(name, xs)))
    decreases xs, 0
  {
    result := [];
    var i := 0;
    while i < |xs|
      invariant 0 <= i <= |xs|
      invariant result == PairsOf(initPath, LeafEntries(InstEntries(name, xs[..i])))
    {
      var y := xs[i];
      var path := Extend(initPath, FormatSegment(name, i));
      InstLeavesStep(name, xs, i, initPath);
      var added;
      if !y.Node? {
        added := [(path, y)];
      } else {
        assert y in xs;
        added := LeavesFrom(y.fields, Some(path));
      }
      result := result + added;
      i := i + 1;
    }
    assert xs[..i] == xs;
  }

  /** What one turn of that loop adds. */
  lemma InstLeavesStep(name: string, xs: seq<Instance>, i: nat, initPath: Option<string>)
    requires i < |xs|
    ensures var path := Extend(initPath, FormatSegment(name, i));
            PairsOf(initPath, LeafEntries(InstEntries(name, xs[..i + 1]))) ==
              PairsOf(initPath, LeafEntries(InstEntries(name, xs[..i]))) +
              if xs[i].Node? then PairsOf(Some(path), LeafEntries(Entries(xs[i].fields))) else [(path, xs[i])]
  {
    var st := Step(name, i);
    InstEntriesSnoc(name, xs, i);
    LeafEntriesAppend(InstEntries(name, xs[..i]), EntriesOf(st, xs[i]));
    PairsOfAppend(initPath, LeafEntries(InstEntries(name, xs[..i])), LeafEntries(EntriesOf(st, xs[i])));
    PairsOfEntriesOf(initPath, st, xs[i]);
  }

  /** The loop of `values()` over a list of keys. */
  method ValuesFrom(data: seq<Field>, ks: seq<string>) returns (r: Result<seq<Instance>>)
    ensures r == ValuesOf(data, ks)
  {
    var vs: seq<Instance> := [];
    var i: nat := 0;
    ValuesOfFrom(data, ks, vs, 0);
    while i < |ks|
      invariant i <= |ks|
      invariant Then(vs, ValuesOf(data, ks[i..])) == ValuesOf(data, ks)
    {
      var v := GetItemOf(data, Dotted(ks[i]));
      ValuesOfStep(data, ks, vs, i);
      match v {
        case Err(e) => return Err(e);
        case Ok(x) => vs := vs + [x];
      }
      i := i + 1;
    }
    ValuesOfFrom(data, ks, vs, i);
    r := Ok(vs);
  }

  // ---------------------------------------------------------------------
  // Helpers for the loops
  // ---------------------------------------------------------------------

  lemma EntriesSnoc(fs: seq<Field>, k: nat)
    requires k < |fs|
    ensures Entries(fs[..k + 1]) == Entries(fs[..k]) + InstEntries(fs[k].name, fs[k].insts)
  {
    assert fs[..k + 1][..k] == fs[..k];
  }

  lemma InstEntriesSnoc(name: string, xs: seq<Instance>, i: nat)
    requires i < |xs|
    ensures InstEntries(name, xs[..i + 1]) == InstEntries(name, xs[..i]) + EntriesOf(Step(name, i), xs[i])
  {
    assert xs[..i + 1][..i] == xs[..i];
  }

  lemma KeysOfAppend(initPath: Option<string>, a: seq<Entry>, b: seq<Entry>)
    ensures KeysOf(initPath, a + b) == KeysOf(initPath, a) + KeysOf(initPath, b)
  {
  }

  lemma PairsOfAppend(initPath: Option<string>, a: seq<Entry>, b: seq<Entry>)
    ensures PairsOf(initPath, a + b) == PairsOf(initPath, a) + PairsOf(initPath, b)
  {
  }

  lemma {:induction false} LeafEntriesAppend(a: seq<Entry>, b: seq<Entry>)
    ensures LeafEntries(a + b) == LeafEntries(a) + LeafEntries(b)
    decreases |b|
  {
    if b == [] {
      assert a + b == a;
    } else {
      var n := |b| - 1;
      assert (a + b)[..|a + b| - 1] == a + b[..n];
      LeafEntriesAppend(a, b[..n]);
    }
  }

  lemma {:induction false} LeafEntriesUnder(p: seq<Step>, es: seq<Entry>)
    ensures LeafEntries(Under(p, es)) == Under(p, LeafEntries(es))
    decreases |es|
  {
    if es != [] {
      var n := |es| - 1;
      var u := Under(p, es);
      assert u[..n] == Under(p, es[..n]);
      assert u[n] == Entry(p + es[n].path, es[n].inst);
      LeafEntriesUnder(p, es[..n]);
      var last := if es[n].inst.Node? then [] else [es[n]];
      assert LeafEntries(es) == LeafEntries(es[..n]) + last;
      assert LeafEntries(u) == Under(p, LeafEntries(es[..n])) + Under(p, last);
      UnderAppend(p, LeafEntries(es[..n]), last);
    }
  }

  lemma UnderAppend(p: seq<Step>, a: seq<Entry>, b: seq<Entry>)
    ensures Under(p, a + b) == Under(p, a) + Under(p, b)
  {
  }


  /** The first key below a step is the key `keys()` builds for that step. */
  lemma LabelStep(initPath: Option<string>, st: Step)
    ensures Label(initPath, [st]) == Extend(initPath, FormatSegment(st.name, st.index))
  {
    FormatPathSnoc([], st);
    assert [] + [st] == [st];
  }

  /** A path one step longer at the front is written with one more segment in front. */
  lemma FormatPathCons(st: Step, r: seq<Step>)
    requires |r| >= 1
    ensures FormatPath([st] + r) == FormatSegment(st.name, st.index) + "." + FormatPath(r)
  {
    var q := [st] + r;
    var parts := seq(|q|, i requires 0 <= i < |q| => FormatSegment(q[i].name, q[i].index));
    assert parts[1..] == seq(|r|, i requires 0 <= i < |r| => FormatSegment(r[i].name, r[i].index));
  }

  /** The key of a path one step below `st`, written from the parent. */
  lemma LabelCons(initPath: Option<string>, st: Step, p: seq<Step>)
    requires |p| >= 1
    ensures Label(Some(Label(initPath, [st])), p) == Label(initPath, [st] + p)
  {
    FormatPathCons(st, p);
    LabelStep(initPath, st);
    var seg := FormatSegment(st.name, st.index);
    match initPath {
      case None =>
      case Some(ip) => Assoc4(ip, ".", seg, "." + FormatPath(p));
    }
  }

  /** The recursive call's keys, below `path`, are the keys of the entries
      seen from the parent. */
  lemma KeysOfUnder(initPath: Option<string>, st: Step, es: seq<Entry>)
    requires forall e :: e in es ==> |e.path| >= 1
    ensures KeysOf(Some(Label(initPath, [st])), es) == KeysOf(initPath, Under([st], es))
  {
    forall i | 0 <= i < |es|
      ensures Label(Some(Label(initPath, [st])), es[i].path) == Label(initPath, [st] + es[i].path)
    {
      LabelCons(initPath, st, es[i].path);
    }
  }

  lemma PairsOfUnder(initPath: Option<string>, st: Step, es: seq<Entry>)
    requires forall e :: e in es ==> |e.path| >= 1
    ensures PairsOf(Some(Label(initPath, [st])), es) == PairsOf(initPath, Under([st], es))
  {
    forall i | 0 <= i < |es|
      ensures Label(Some(Label(initPath, [st])), es[i].path) == Label(initPath, [st] + es[i].path)
    {
      LabelCons(initPath, st, es[i].path);
    }
  }

  /** What the loop body adds for one instance `y` reached by `st`. */
  lemma KeysOfEntriesOf(initPath: Option<string>, st: Step, y: Instance)
    ensures var path := Extend(initPath, FormatSegment(st.name, st.index));
            KeysOf(initPath, EntriesOf(st, y)) ==
              [path] + if y.Node? then KeysOf(Some(path), Entries(y.fields)) else []
  {
    LabelStep(initPath, st);
    var path := Extend(initPath, FormatSegment(st.name, st.index));
    assert KeysOf(initPath, [Entry([st], y)]) == [path];
    if y.Node? {
      var sub := Entries(y.fields);
      var rest := Under([st], sub);
      assert EntriesOf(st, y) == [Entry([st], y)] + rest;
      KeysOfAppend(initPath, [Entry([st], y)], rest);
      KeysOfUnder(initPath, st, sub);
    } else {
      assert EntriesOf(st, y) == [Entry([st], y)];
    }
  }

  lemma PairsOfEntriesOf(initPath: Option<string>, st: Step, y: Instance)
    ensures var path := Extend(initPath, FormatSegment(st.name, st.index));
            PairsOf(initPath, LeafEntries(EntriesOf(st, y))) ==
              if y.Node? then PairsOf(Some(path), LeafEntries(Entries(y.fields))) else [(path, y)]
  {
    LabelStep(initPath, st);
    if y.Node? {
      LeafEntriesAppend([Entry([st], y)], Under([st], Entries(y.fields)));
      assert LeafEntries([Entry([st], y)]) == [];
      LeafEntriesUnder([st], Entries(y.fields));
      PairsOfUnder(initPath, st, LeafEntries(Entries(y.fields)));
    } else {
      assert EntriesOf(st, y) == [Entry([st], y)];
      assert LeafEntries([Entry([st], y)]) == [Entry([st], y)];
    }
  }

  /** Before the loop nothing is collected; after it no key is left. */
  lemma ValuesOfFrom(data: seq<Field>, ks: seq<string>, vs: seq<Instance>, i: nat)
    requires i == 0 || i == |ks|
    ensures i == 0 && vs == [] ==> Then(vs, ValuesOf(data, ks[i..])) == ValuesOf(data, ks)
    ensures i == |ks| ==> Then(vs, ValuesOf(data, ks[i..])) == Ok(vs)
  {
    assert ks[0..] == ks;
    assert |ks[|ks|..]| == 0;
    var r := ValuesOf(data, ks);
    if r.Ok? {
      assert [] + r.value == r.value;
    }
    assert vs + [] == vs;
  }

  /** One turn of the loop: the key at `i` either raises, ending `values()`
      with its exception, or adds its value to those collected. */
  lemma ValuesOfStep(data: seq<Field>, ks: seq<string>, vs: seq<Instance>, i: nat)
    requires i < |ks|
    ensures GetItemOf(data, Dotted(ks[i])).Err? ==>
              Then(vs, ValuesOf(data, ks[i..])) == Err(GetItemOf(data, Dotted(ks[i])).error)
    ensures GetItemOf(data, Dotted(ks[i])).Ok? ==>
              Then(vs, ValuesOf(data, ks[i..])) ==
                Then(vs + [GetItemOf(data, Dotted(ks[i])).value], ValuesOf(data, ks[i + 1..]))
  {
    var rest := ks[i..];
    assert rest[0] == ks[i] && rest[1..] == ks[i + 1..];
    var r := ValuesOf(data, ks[i + 1..]);
    if GetItemOf(data, Dotted(ks[i])).Ok? && r.Ok? {
      AppendAssoc(vs, [GetItemOf(data, Dotted(ks[i])).value], r.value);
    }
  }

  lemma AppendAssoc<T>(a: seq<T>, b: seq<T>, c: seq<T>)
    ensures (a + b) + c == a + (b + c)
  {
  }
}
