/** Dotted key syntax: splitting and joining addresses, splitting a
    segment into field name and instance index, and the two index
    disciplines (value addresses, field addresses). */
module Address {
  import opened Results

  predicate IsDigit(c: char) { '0' <= c <= '9' }

  /** `s[-1].isnumeric()` for a non-empty segment. */
  predicate EndsInDigit(s: string) { |s| > 0 && IsDigit(s[|s| - 1]) }

  /** A field name that survives a trip through dotted key syntax. */
  predicate WellNamed(name: string) { '.' !in name && !EndsInDigit(name) }

  // ---------------------------------------------------------------------
  // Splitting and joining on '.'
  // ---------------------------------------------------------------------

  /** `dotted_string.split(".")`: the pieces between the dots. */
  function Split(s: string): (parts: seq<string>)
    ensures |parts| >= 1
    ensures forall i :: 0 <= i < |parts| ==> '.' !in parts[i]
  {
    if s == [] then [[]]
    else
      var rest := Split(s[1..]);
      if s[0] == '.' then [[]] + rest
      else [[s[0]] + rest[0]] + rest[1..]
  }

  /** `".".join(parts)`. */
  function Join(parts: seq<string>): string
  {
    if parts == [] then []
    else if |parts| == 1 then parts[0]
    else parts[0] + "." + Join(parts[1..])
  }

  /** Joining the pieces of a split gives back the string. */
  lemma {:induction false} JoinSplit(s: string)
    ensures Join(Split(s)) == s
  {
    if s != [] {
      var rest := Split(s[1..]);
      JoinSplit(s[1..]);
      if s[0] != '.' && |rest| > 1 {
        assert Join(rest) == rest[0] + "." + Join(rest[1..]);
      }
    }
  }

  lemma {:induction false} SplitPrefix(a: string, t: string)
    requires '.' !in a
    ensures Split(a + t) == [a + Split(t)[0]] + Split(t)[1..]
  {
    if a == [] {
      assert a + t == t && a + Split(t)[0] == Split(t)[0];
    } else {
      SplitPrefix(a[1..], t);
      assert a[0] in a;
      assert (a + t)[0] == a[0] && (a + t)[1..] == a[1..] + t;
      assert [a[0]] + (a[1..] + Split(t)[0]) == a + Split(t)[0];
    }
  }

  /** Splitting a join of dot-free pieces gives back the pieces. */
  lemma {:induction false} SplitJoin(parts: seq<string>)
    requires |parts| >= 1
    requires forall i :: 0 <= i < |parts| ==> '.' !in parts[i]
    ensures Split(Join(parts)) == parts
  {
    if |parts| == 1 {
      SplitPrefix(parts[0], []);
      assert parts[0] + [] == parts[0];
    } else {
      var tail := "." + Join(parts[1..]);
      SplitJoin(parts[1..]);
      SplitPrefix(parts[0], tail);
      assert Join(parts) == parts[0] + tail;
      assert tail[0] == '.' && tail[1..] == Join(parts[1..]);
      assert Split(tail) == [[]] + parts[1..];
      assert parts[0] + [] == parts[0];
    }
  }

  /** `_list_to_dotted`: join, refusing a piece that contains the separator. */
  function ListToDotted(parts: seq<string>): (r: Result<string>)
    ensures r.Ok? <==> forall i :: 0 <= i < |parts| ==> '.' !in parts[i]
    ensures r.Err? ==> r.error == MalformedAddress
    ensures r.Ok? && |parts| >= 1 ==> Split(r.value) == parts
  {
    if exists i :: 0 <= i < |parts| && '.' in parts[i] then Err(MalformedAddress)
    else if parts == [] then Ok(Join(parts))
    else SplitJoin(parts); Ok(Join(parts))
  }

  // ---------------------------------------------------------------------
  // Decimal digits
  // ---------------------------------------------------------------------

  predicate AllDigits(s: string) { forall i :: 0 <= i < |s| ==> IsDigit(s[i]) }

  /** `int(ds)` for a string of decimal digits. */
  function DigitsValue(ds: string): nat
    requires AllDigits(ds)
  {
    if ds == [] then 0
    else 10 * DigitsValue(ds[..|ds| - 1]) + (ds[|ds| - 1] as int - '0' as int)
  }

  /** `str(n)`: the decimal digits of `n`, without leading zeros. */
  function NatToDigits(n: nat): (ds: string)
    ensures |ds| >= 1 && AllDigits(ds)
    ensures DigitsValue(ds) == n
    ensures |ds| > 1 ==> ds[0] != '0'
  {
    if n < 10 then [('0' as int + n) as char]
    else
      var front := NatToDigits(n / 10);
      var ds := front + [('0' as int + n % 10) as char];
      assert ds[..|ds| - 1] == front;
      ds
  }

  // ---------------------------------------------------------------------
  // Segments
  // ---------------------------------------------------------------------

  /** A parsed segment: field name and optional instance index. */
  datatype Segment = Segment(name: string, index: Option<nat>)

  /** The number of decimal digits at the end of `s`. */
  function DigitRun(s: string): (n: nat)
    ensures n <= |s|
    ensures forall i :: |s| - n <= i < |s| ==> IsDigit(s[i])
    ensures n < |s| ==> !IsDigit(s[|s| - n - 1])
  {
    if s == [] || !IsDigit(s[|s| - 1]) then 0
    else DigitRun(s[..|s| - 1]) + 1
  }

  /** `_split_path_strings`: the maximal trailing run of digits is the
      index, the rest is the field name; no trailing digits, no index. */
  function ParseSegment(s: string): (seg: Segment)
    ensures seg.name <= s && !EndsInDigit(seg.name)
    ensures AllDigits(s[|seg.name|..])
    ensures seg.index.None? <==> !EndsInDigit(s)
    ensures seg.index.Some? ==> seg.index.value == DigitsValue(s[|seg.name|..])
  {
    var n := DigitRun(s);
    var name := s[..|s| - n];
    assert forall i :: 0 <= i < |s[|name|..]| ==> s[|name|..][i] == s[|name| + i];
    if n == 0 then Segment(name, None)
    else Segment(name, Some(DigitsValue(s[|s| - n..])))
  }

  /** `x + str(i)`: the segment for instance `i` of field `x`, as keys() writes it. */
  function FormatSegment(name: string, index: nat): string
  {
    name + NatToDigits(index)
  }

  /** A well-named field's segment parses back to its name and index. */
  lemma ParseFormat(name: string, index: nat)
    requires !EndsInDigit(name)
    ensures ParseSegment(FormatSegment(name, index)) == Segment(name, Some(index))
  {
    var s := FormatSegment(name, index);
    var ds := NatToDigits(index);
    var seg := ParseSegment(s);
    assert s[..|name|] == name && s[|name|..] == ds;
    assert seg.name == name;
  }

  /** A field name ending in a digit does not survive: instance 0 of
      field "v2" is written "v20", which reads back as instance 20 of "v". */
  lemma DigitEndingNameMisparses()
    ensures FormatSegment("v2", 0) == "v20"
    ensures ParseSegment(FormatSegment("v2", 0)) == Segment("v", Some(20))
  {
    var s := FormatSegment("v2", 0);
    assert s == "v20";
    var seg := ParseSegment(s);
    assert !IsDigit('v');
    assert |seg.name| == 1;
    assert s[1..] == "20";
    assert DigitsValue("20") == 20 by {
      assert "20"[..1] == "2";
      assert "2"[..0] == "";
    }
  }

  // ---------------------------------------------------------------------
  // Index discipline
  // ---------------------------------------------------------------------

  /** The first segment failing `EndsInDigit` decides the exception:
      `x[-1]` on an empty segment raises IndexError, a non-digit ValueError. */
  function Violation(s: string): Error
  {
    if s == [] then IndexError else MalformedAddress
  }

  /** The position of the first segment that does not end in a digit, or
      the number of segments when every one does. */
  function FirstUnindexed(keys: seq<string>): (i: nat)
    ensures i <= |keys|
    ensures forall j :: 0 <= j < i ==> EndsInDigit(keys[j])
    ensures i < |keys| ==> !EndsInDigit(keys[i])
  {
    if keys == [] || !EndsInDigit(keys[0]) then 0
    else 1 + FirstUnindexed(keys[1..])
  }

  /** `_reqs_indices`: every segment must end in a digit; the first that
      does not decides the exception. */
  function ReqsIndices(keys: seq<string>): (r: Option<Error>)
    ensures r.None? <==> forall i :: 0 <= i < |keys| ==> EndsInDigit(keys[i])
    ensures r.Some? ==> FirstUnindexed(keys) < |keys| && r.value == Violation(keys[FirstUnindexed(keys)])
  {
    if keys == [] then None
    else if !EndsInDigit(keys[0]) then Some(Violation(keys[0]))
    else
      var r := ReqsIndices(keys[1..]);
      assert forall i :: 1 <= i < |keys| ==> keys[i] == keys[1..][i - 1];
      r
  }

  /** The shape `_no_leaf_index` accepts: every segment but the last ends
      in a digit, and the last is non-empty and does not. */
  predicate FieldShaped(keys: seq<string>)
  {
    && |keys| >= 1
    && (forall i :: 0 <= i < |keys| - 1 ==> EndsInDigit(keys[i]))
    && keys[|keys| - 1] != []
    && !EndsInDigit(keys[|keys| - 1])
  }

  /** `_no_leaf_index`: inner segments must carry an index, the last must not.
      On an empty list `keyList[-1]` raises IndexError. */
  function NoLeafIndex(keys: seq<string>): (r: Option<Error>)
    ensures r.None? <==> FieldShaped(keys)
    ensures keys == [] ==> r == Some(IndexError)
    ensures keys != [] && ReqsIndices(keys[..|keys| - 1]).Some? ==> r == ReqsIndices(keys[..|keys| - 1])
    ensures keys != [] && ReqsIndices(keys[..|keys| - 1]).None? && r.Some? ==>
              r.value == Violation(keys[|keys| - 1])
  {
    if keys == [] then Some(IndexError)
    else
      var inner := keys[..|keys| - 1];
      var last := keys[|keys| - 1];
      assert forall i :: 0 <= i < |keys| - 1 ==> keys[i] == inner[i];
      match ReqsIndices(inner)
      case Some(e) => Some(e)
      case None =>
        if last == [] then Some(IndexError)
        else if EndsInDigit(last) then Some(MalformedAddress)
        else None
  }

  // ---------------------------------------------------------------------
  // Parsed addresses
  // ---------------------------------------------------------------------

  /** One step of a descent: `start[name][index]`. */
  datatype Step = Step(name: string, index: nat)

  function StepOf(s: string): (st: Step)
    requires EndsInDigit(s)
  {
    var seg := ParseSegment(s);
    Step(seg.name, seg.index.value)
  }

  /** The steps of a value address (every segment indexed). */
  function ValuePath(keys: seq<string>): (p: seq<Step>)
    requires ReqsIndices(keys).None?
    ensures |p| == |keys|
    ensures forall i :: 0 <= i < |keys| ==> ParseSegment(keys[i]) == Segment(p[i].name, Some(p[i].index))
  {
    seq(|keys|, i requires 0 <= i < |keys| => StepOf(keys[i]))
  }

  /** The inner steps and final field name of a field address. */
  function FieldPath(keys: seq<string>): (r: (seq<Step>, string))
    requires NoLeafIndex(keys).None?
    ensures |r.0| == |keys| - 1
    ensures forall i :: 0 <= i < |keys| - 1 ==> ParseSegment(keys[i]) == Segment(r.0[i].name, Some(r.0[i].index))
    ensures ParseSegment(keys[|keys| - 1]) == Segment(r.1, None)
  {
    (ValuePath(keys[..|keys| - 1]), keys[|keys| - 1])
  }

  /** The segments `_init_field_from_key_list` walks for a value address. */
  function ValueSegments(p: seq<Step>): seq<Segment>
  {
    seq(|p|, i requires 0 <= i < |p| => Segment(p[i].name, Some(p[i].index)))
  }

  /** The segments `_init_field_from_key_list` walks for a field address. */
  function FieldSegments(inner: seq<Step>, name: string): seq<Segment>
  {
    ValueSegments(inner) + [Segment(name, None)]
  }

  /** The dotted key keys() produces for a path. */
  function FormatPath(p: seq<Step>): string
  {
    Join(seq(|p|, i requires 0 <= i < |p| => FormatSegment(p[i].name, p[i].index)))
  }

  lemma JoinSnoc(parts: seq<string>, last: string)
    requires |parts| >= 1
    ensures Join(parts + [last]) == Join(parts) + "." + last
  {
    var q := parts + [last];
    TailSnoc(parts, last);
    assert q[0] == parts[0];
    if |parts| == 1 {
      assert q[1..] == [last];
      assert Join(q[1..]) == last;
    } else {
      JoinSnoc(parts[1..], last);
      assert Join(q[1..]) == Join(parts[1..]) + "." + last;
      Assoc4(parts[0], ".", Join(parts[1..]), "." + last);
    }
  }

  lemma TailSnoc<T>(a: seq<T>, x: T)
    requires |a| >= 1
    ensures (a + [x])[1..] == a[1..] + [x]
  {
  }

  lemma Assoc4<T>(a: seq<T>, b: seq<T>, c: seq<T>, d: seq<T>)
    ensures a + b + (c + d) == (a + b + c) + d
  {
  }

  /** keys() extends a path by one step as `".".join([init_path, x + str(i)])`. */
  lemma FormatPathSnoc(p: seq<Step>, st: Step)
    ensures FormatPath(p + [st]) ==
              if p == [] then FormatSegment(st.name, st.index)
              else FormatPath(p) + "." + FormatSegment(st.name, st.index)
  {
    var parts := seq(|p|, i requires 0 <= i < |p| => FormatSegment(p[i].name, p[i].index));
    var q := p + [st];
    assert seq(|q|, i requires 0 <= i < |q| => FormatSegment(q[i].name, q[i].index))
        == parts + [FormatSegment(st.name, st.index)];
    if p != [] {
      JoinSnoc(parts, FormatSegment(st.name, st.index));
    }
  }

  /** A key written for a path of well-named fields reads back as that
      path, and passes the value-address discipline. */
  lemma ParseFormatPath(p: seq<Step>)
    requires |p| >= 1
    requires forall i :: 0 <= i < |p| ==> WellNamed(p[i].name)
    ensures ReqsIndices(Split(FormatPath(p))).None?
    ensures ValuePath(Split(FormatPath(p))) == p
  {
    var parts := seq(|p|, i requires 0 <= i < |p| => FormatSegment(p[i].name, p[i].index));
    forall i | 0 <= i < |parts|
      ensures '.' !in parts[i] && EndsInDigit(parts[i])
    {
      var ds := NatToDigits(p[i].index);
      assert parts[i] == p[i].name + ds;
      assert parts[i][|parts[i]| - 1] == ds[|ds| - 1];
      forall k | 0 <= k < |parts[i]|
        ensures parts[i][k] != '.'
      {
        if k < |p[i].name| {
          assert parts[i][k] == p[i].name[k];
        } else {
          assert parts[i][k] == ds[k - |p[i].name|];
        }
      }
    }
    SplitJoin(parts);
    var ks := Split(FormatPath(p));
    assert ks == parts;
    forall i | 0 <= i < |p|
      ensures ValuePath(ks)[i] == p[i]
    {
      ParseFormat(p[i].name, p[i].index);
    }
  }
}
