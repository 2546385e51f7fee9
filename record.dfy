/** The public face of `HierarchicalRecord`: keys given as dotted strings
    or as lists of segments, the index discipline checked on entry, the
    existence test that decides whether to vivify, and the setter, getter
    or remover that follows. The operations are specified as functions of
    the record's data; the class performs them step by step. */
module Record {
  import opened Results
  import opened Tree
  import opened Address
  import opened Traversal
  import opened Updates
  import opened Vivification

  /** A key: a string in dotted key syntax, or a list of its segments.
      (`isinstance(key, str)` is split on '.'; a list is used as is.) */
  datatype Key = Dotted(s: string) | Parts(parts: seq<string>)

  /** The key as a list of segments (`_dotted_to_list` for a string). */
  function KeyList(key: Key): seq<string>
  {
    match key
    case Dotted(s) => Split(s)
    case Parts(ks) => ks
  }

  /** The record's data after an operation, and the exception it raised.
      Python mutates in place, so a failed operation could leave changes;
      the atomicity lemmas below show that none of these does. */
  datatype Outcome = Outcome(data: seq<Field>, error: Option<Error>)

  /** The discipline a value operation checks first (`_reqs_indices`), then
      `keyList[0]`, which raises IndexError on an empty list. */
  function ValueAddress(key: Key): (r: Result<seq<Step>>)
    ensures r.Ok? <==> |KeyList(key)| >= 1 && ReqsIndices(KeyList(key)).None?
    ensures r.Ok? ==> r.value == ValuePath(KeyList(key))
    ensures r.Err? && ReqsIndices(KeyList(key)).Some? ==> r.error == ReqsIndices(KeyList(key)).value
    ensures KeyList(key) == [] ==> r == Err(IndexError)
  {
    var ks := KeyList(key);
    match ReqsIndices(ks)
    case Some(e) => Err(e)
    case None => if ks == [] then Err(IndexError) else Ok(ValuePath(ks))
  }

  /** The discipline a field operation checks first (`_no_leaf_index`). */
  function FieldAddress(key: Key): (r: Result<(seq<Step>, string)>)
    ensures r.Ok? <==> FieldShaped(KeyList(key))
    ensures r.Err? ==> Some(r.error) == NoLeafIndex(KeyList(key))
    ensures r.Ok? ==> r.value == FieldPath(KeyList(key)) && WellNamedLast(r.value.1)
  {
    var ks := KeyList(key);
    match NoLeafIndex(ks)
    case Some(e) => Err(e)
    case None => Ok(FieldPath(ks))
  }

  /** The last segment of a field address: no index, and not empty. */
  predicate WellNamedLast(name: string)
  {
    name != [] && !EndsInDigit(name)
  }

  // ---------------------------------------------------------------------
  // Readers
  // ---------------------------------------------------------------------

  /** `get_value`. */
  function GetValueOf(data: seq<Field>, key: Key): Result<Instance>
  {
    var p :- ValueAddress(key);
    Follow(Node(data), p)
  }

  /** `get_field`. */
  function GetFieldOf(data: seq<Field>, key: Key): Result<seq<Instance>>
  {
    var (inner, name) :- FieldAddress(key);
    GetFieldAt(Node(data), inner, name)
  }

  /** `_check_if_value_exists` on the record, after the discipline check. */
  function ValueExistsOf(data: seq<Field>, key: Key): Result<bool>
  {
    var p :- ValueAddress(key);
    ValueExistsAt(Node(data), p)
  }

  /** `_check_if_field_exists` on the record, after the discipline check. */
  function FieldExistsOf(data: seq<Field>, key: Key): Result<bool>
  {
    var (inner, name) :- FieldAddress(key);
    FieldExistsAt(Node(data), inner, name)
  }

  // ---------------------------------------------------------------------
  // Writers
  // ---------------------------------------------------------------------

  /** `set_value`: vivify the address unless the value exists, then assign. */
  function SetValueOf(data: seq<Field>, key: Key, v: Instance): Outcome
  {
    match ValueAddress(key)
    case Err(e) => Outcome(data, Some(e))
    case Ok(p) =>
      match ValueExistsAt(Node(data), p)
      case Err(e) => Outcome(data, Some(e))
      case Ok(exists_) =>
        var (t, verr) := if exists_ then (Node(data), None) else Vivify(Node(data), ValueSegments(p));
        if verr.Some? then Outcome(t.fields, verr)
        else
          match SetValueAt(t, p, v)
          case Err(e) => Outcome(t.fields, Some(e))
          case Ok(u) => Outcome(u.fields, None)
  }

  /** `set_field`: only a list may be stored; vivify the field unless it
      exists, then replace its whole instance list. */
  function SetFieldOf(data: seq<Field>, key: Key, value: Instance): Outcome
  {
    match FieldAddress(key)
    case Err(e) => Outcome(data, Some(e))
    case Ok((inner, name)) =>
      if !value.List? then Outcome(data, Some(NotAList))
      else
        match FieldExistsAt(Node(data), inner, name)
        case Err(e) => Outcome(data, Some(e))
        case Ok(exists_) =>
          var (t, verr) := if exists_ then (Node(data), None) else Vivify(Node(data), FieldSegments(inner, name));
          if verr.Some? then Outcome(t.fields, verr)
          else
            match SetFieldAt(t, inner, name, value.items)
            case Err(e) => Outcome(t.fields, Some(e))
            case Ok(u) => Outcome(u.fields, None)
  }

  /** The key `add_to_field` hands to `set_value` for a missing field: the
      same segments with "0" appended to the last (`key[-1] = key[-1]+"0"`). */
  function FirstInstanceKey(key: Key): Key
    requires |KeyList(key)| >= 1
  {
    var ks := KeyList(key);
    Parts(ks[..|ks| - 1] + [ks[|ks| - 1] + "0"])
  }

  /** `add_to_field`: append to an existing field; otherwise raise, or set
      index 0 of the field. */
  function AddToFieldOf(data: seq<Field>, key: Key, v: Instance, createIfNecessary: bool): Outcome
  {
    match FieldAddress(key)
    case Err(e) => Outcome(data, Some(e))
    case Ok((inner, name)) =>
      match FieldExistsAt(Node(data), inner, name)
      case Err(e) => Outcome(data, Some(e))
      case Ok(true) =>
        (match AddToFieldAt(Node(data), inner, name, v)
         case Err(e) => Outcome(data, Some(e))
         case Ok(u) => Outcome(u.fields, None))
      case Ok(false) =>
        if !createIfNecessary then Outcome(data, Some(FieldNotFound))
        else SetValueOf(data, FirstInstanceKey(key), v)
  }

  /** `remove_value`: delete the instance if it exists; otherwise nothing. */
  function RemoveValueOf(data: seq<Field>, key: Key): Outcome
  {
    match ValueAddress(key)
    case Err(e) => Outcome(data, Some(e))
    case Ok(p) =>
      match ValueExistsAt(Node(data), p)
      case Err(e) => Outcome(data, Some(e))
      case Ok(false) => Outcome(data, None)
      case Ok(true) =>
        match DelValueAt(Node(data), p)
        case Err(e) => Outcome(data, Some(e))
        case Ok(u) => Outcome(u.fields, None)
  }

  /** `remove_field`: delete the field if it exists; otherwise nothing. */
  function RemoveFieldOf(data: seq<Field>, key: Key): Outcome
  {
    match FieldAddress(key)
    case Err(e) => Outcome(data, Some(e))
    case Ok((inner, name)) =>
      match FieldExistsAt(Node(data), inner, name)
      case Err(e) => Outcome(data, Some(e))
      case Ok(false) => Outcome(data, None)
      case Ok(true) =>
        match DelFieldAt(Node(data), inner, name)
        case Err(e) => Outcome(data, Some(e))
        case Ok(u) => Outcome(u.fields, None)
  }

  // ---------------------------------------------------------------------
  // Item access: `record[key]`
  // ---------------------------------------------------------------------

  /** Python's `str.isnumeric` on ASCII: non-empty and all digits. */
  predicate Numeric(s: string)
  {
    |s| > 0 && AllDigits(s)
  }

  /** `key[-1].isnumeric()`: the last character of a string key, the whole
      last segment of a list key; IndexError on an empty key. */
  function NamesValue(key: Key): Result<bool>
  {
    match key
    case Dotted(s) => if s == [] then Err(IndexError) else Ok(IsDigit(s[|s| - 1]))
    case Parts(ks) => if ks == [] then Err(IndexError) else Ok(Numeric(ks[|ks| - 1]))
  }

  /** `__getitem__`: a value, or a whole field returned as a Python list. */
  function GetItemOf(data: seq<Field>, key: Key): Result<Instance>
  {
    var isValue :- NamesValue(key);
    if isValue then GetValueOf(data, key)
    else
      var xs :- GetFieldOf(data, key);
      Ok(List(xs))
  }

  /** `__setitem__`. */
  function SetItemOf(data: seq<Field>, key: Key, value: Instance): Outcome
  {
    match NamesValue(key)
    case Err(e) => Outcome(data, Some(e))
    case Ok(isValue) => if isValue then SetValueOf(data, key, value) else SetFieldOf(data, key, value)
  }

  /** `__delitem__`. */
  function DelItemOf(data: seq<Field>, key: Key): Outcome
  {
    match NamesValue(key)
    case Err(e) => Outcome(data, Some(e))
    case Ok(isValue) => if isValue then RemoveValueOf(data, key) else RemoveFieldOf(data, key)
  }
}
