/**
  Converting variable specifications to native data: numbers, strings, lists and
  dictionaries.  Fields without a name get the key "attributeN" with their position.
 */
module NativeData {
  import opened Options
  import opened Text

  datatype ScalarValue = Truth(b: bool) | Integer(i: int) | Floating(r: real)

  datatype Node = Node(name: string, body: Body)

  datatype Body =
    | Scalar(typeName: string, values: map<string, ScalarValue>)
    | Enum(typeName: string, values: map<string, ScalarValue>)
    | Text(message: string)
    | Record(fields: seq<Node>)      // a struct or a union
    | Sequence(elements: seq<Node>)  // a vector or an array
    | Opaque                         // interfaces, queues, memory and handles are passed through
    | Unsupported

  datatype Data =
    | Number(value: ScalarValue)
    | Words(text: string)
    | Dictionary(entries: map<string, Data>)
    | List(items: seq<Data>)
    | PassedThrough(node: Node)

  /** The fields a scalar value message has. */
  const SCALARS: set<string> :=
    {"bool_t", "int8_t", "uint8_t", "char", "uchar", "int16_t", "uint16_t", "int32_t", "uint32_t", "int64_t",
     "uint64_t", "float_t", "double_t", "pointer", "opaque", "void_pointer", "char_pointer", "uchar_pointer",
     "pointer_pointer"}

  /** What an unset field reads as. */
  function Unset(name: string): ScalarValue {
    if name == "bool_t" then Truth(false)
    else if name == "float_t" || name == "double_t" then Floating(0.0)
    else Integer(0)
  }

  /** A named scalar field; unset fields read as their default, unknown names raise an error. */
  function Field(values: map<string, ScalarValue>, name: string): Option<Data> {
    if name !in SCALARS then None
    else Some(Number(if name in values then values[name] else Unset(name)))
  }

  /** The dictionary key of the field at a zero-based position. */
  function Key(field: Node, position: nat): string {
    if field.name != "" then field.name else "attribute" + Decimal(position + 1)
  }

  function Convert(n: Node): Option<Data>
    decreases n, 1
  {
    match n.body
    case Scalar(typeName, values) => if typeName == "" then None else Field(values, typeName)
    case Enum(typeName, values) => Field(values, if typeName == "" then "int32_t" else typeName)
    case Text(message) => Some(Words(message))
    case Record(fields) =>
      (match Entries(fields, |fields|) case None => None case Some(d) => Some(Dictionary(d)))
    case Sequence(elements) =>
      (match Items(elements, |elements|) case None => None case Some(l) => Some(List(l)))
    case Opaque => Some(PassedThrough(n))
    case Unsupported => None
  }

  /** The dictionary built from the first `k` fields; later fields overwrite earlier ones. */
  function Entries(fields: seq<Node>, k: nat): Option<map<string, Data>>
    requires k <= |fields|
    decreases fields, 0, k
  {
    if k == 0 then Some(map[])
    else match Entries(fields, k - 1)
      case None => None
      case Some(d) =>
        match Convert(fields[k - 1])
        case None => None
        case Some(data) => Some(d[Key(fields[k - 1], k - 1) := data])
  }

  function Items(elements: seq<Node>, k: nat): Option<seq<Data>>
    requires k <= |elements|
    decreases elements, 0, k
  {
    if k == 0 then Some([])
    else match Items(elements, k - 1)
      case None => None
      case Some(l) =>
        match Convert(elements[k - 1])
        case None => None
        case Some(data) => Some(l + [data])
  }

  /** The conversion; none where the original raises an error. */
  method GetPythonData(n: Node) returns (r: Option<Data>)
    ensures r == Convert(n)
    decreases n, 1
  {
    match n.body
    case Scalar(typeName, values) =>
      if typeName != "" { return Field(values, typeName); }
      return None;
    case Enum(typeName, values) =>
      if typeName != "" { return Field(values, typeName); }
      return Field(values, "int32_t");
    case Text(message) => return Some(Words(message));
    case Record(fields) =>
      var d := ConvertFields(fields);
      return match d case None => None case Some(entries) => Some(Dictionary(entries));
    case Sequence(elements) =>
      var l := ConvertElements(elements);
      return match l case None => None case Some(items) => Some(List(items));
    case Opaque => return Some(PassedThrough(n));
    case Unsupported => return None;
  }

  method ConvertFields(fields: seq<Node>) returns (r: Option<map<string, Data>>)
    ensures r == Entries(fields, |fields|)
    decreases fields, 0
  {
    var result: map<string, Data> := map[];
    for i := 0 to |fields|
      invariant Entries(fields, i) == Some(result)
    {
      var data := GetPythonData(fields[i]);
      if data == None {
        EntriesFail(fields, i);
        return None;
      }
      result := result[Key(fields[i], i) := data.value];
    }
    return Some(result);
  }

  method ConvertElements(elements: seq<Node>) returns (r: Option<seq<Data>>)
    ensures r == Items(elements, |elements|)
    decreases elements, 0
  {
    var result: seq<Data> := [];
    for i := 0 to |elements|
      invariant Items(elements, i) == Some(result)
    {
      var data := GetPythonData(elements[i]);
      if data == None {
        ItemsFail(elements, i);
        return None;
      }
      result := result + [data.value];
    }
    return Some(result);
  }

  lemma {:induction false} EntriesUpTo(fields: seq<Node>, k: nat)
    requires k <= |fields|
    ensures Entries(fields, k).Some? <==> forall i :: 0 <= i < k ==> Convert(fields[i]).Some?
    decreases k
  {
    hide Convert;
    if k > 0 {
      EntriesUpTo(fields, k - 1);
    }
  }

  lemma EntriesFail(fields: seq<Node>, i: nat)
    requires i < |fields| && Convert(fields[i]) == None
    ensures Entries(fields, |fields|) == None
  {
    hide Convert;
    EntriesUpTo(fields, |fields|);
  }

  lemma {:induction false} ItemsUpTo(elements: seq<Node>, k: nat)
    requires k <= |elements|
    ensures Items(elements, k).Some? <==> forall i :: 0 <= i < k ==> Convert(elements[i]).Some?
    ensures Items(elements, k).Some? ==>
              && |Items(elements, k).value| == k
              && forall i :: 0 <= i < k ==> Convert(elements[i]) == Some(Items(elements, k).value[i])
    decreases k
  {
    hide Convert;
    if k > 0 {
      ItemsUpTo(elements, k - 1);
    }
  }

  lemma ItemsFail(elements: seq<Node>, i: nat)
    requires i < |elements| && Convert(elements[i]) == None
    ensures Items(elements, |elements|) == None
  {
    hide Convert;
    ItemsUpTo(elements, |elements|);
  }

  // ---- When conversion succeeds ----------------------------------------------------------------------------

  /** Every node below has a supported type, and every scalar names a known field. */
  predicate Supported(n: Node)
    decreases n
  {
    match n.body
    case Scalar(typeName, _) => typeName in SCALARS
    case Enum(typeName, _) => typeName == "" || typeName in SCALARS
    case Text(_) => true
    case Record(fields) => forall i :: 0 <= i < |fields| ==> Supported(fields[i])
    case Sequence(elements) => forall i :: 0 <= i < |elements| ==> Supported(elements[i])
    case Opaque => true
    case Unsupported => false
  }

  lemma {:induction false} SucceedsIffSupported(n: Node)
    ensures Convert(n).Some? <==> Supported(n)
    decreases n
  {
    match n.body
    case Record(fields) =>
      forall i | 0 <= i < |fields| ensures Convert(fields[i]).Some? <==> Supported(fields[i]) {
        SucceedsIffSupported(fields[i]);
      }
      EntriesUpTo(fields, |fields|);
    case Sequence(elements) =>
      forall i | 0 <= i < |elements| ensures Convert(elements[i]).Some? <==> Supported(elements[i]) {
        SucceedsIffSupported(elements[i]);
      }
      ItemsUpTo(elements, |elements|);
    case Scalar(typeName, _) => assert "" !in SCALARS;
    case Enum(_, _) => assert "int32_t" in SCALARS;
    case _ =>
  }

  // ---- What conversion keeps -----------------------------------------------------------------------------------

  predicate DistinctKeys(fields: seq<Node>, k: nat)
    requires k <= |fields|
  {
    forall i, j :: 0 <= i < j < k ==> Key(fields[i], i) != Key(fields[j], j)
  }

  /** A key of the first `k` fields, with the last position that uses it. */
  predicate LastUse(fields: seq<Node>, k: nat, i: nat)
    requires k <= |fields|
  {
    i < k && forall j :: i < j < k ==> Key(fields[j], j) != Key(fields[i], i)
  }

  /** Each key carries the value of the last field that uses it. */
  lemma {:induction false} LastFieldWins(fields: seq<Node>, k: nat, i: nat)
    requires k <= |fields| && Entries(fields, k).Some? && LastUse(fields, k, i)
    ensures Key(fields[i], i) in Entries(fields, k).value
    ensures Convert(fields[i]) == Some(Entries(fields, k).value[Key(fields[i], i)])
    decreases k
  {
    hide Convert;
    hide Key;
    if i < k - 1 {
      LastFieldWins(fields, k - 1, i);
    }
  }

  /** Exactly the keys of the fields occur. */
  lemma {:induction false} KeysOfFields(fields: seq<Node>, k: nat, key: string)
    requires k <= |fields| && Entries(fields, k).Some?
    ensures key in Entries(fields, k).value <==> exists i :: 0 <= i < k && Key(fields[i], i) == key
    decreases k
  {
    hide Convert;
    hide Key;
    if k > 0 {
      KeysOfFields(fields, k - 1, key);
      if Key(fields[k - 1], k - 1) != key && exists i :: 0 <= i < k && Key(fields[i], i) == key {
        var i :| 0 <= i < k && Key(fields[i], i) == key;
        assert i < k - 1;
      }
    }
  }

  lemma {:induction false} SizeIffDistinct(fields: seq<Node>, k: nat)
    requires k <= |fields| && Entries(fields, k).Some?
    ensures |Entries(fields, k).value| <= k
    ensures |Entries(fields, k).value| == k <==> DistinctKeys(fields, k)
    decreases k
  {
    hide Convert;
    hide Key;
    if k > 0 {
      SizeIffDistinct(fields, k - 1);
      var d, e := Entries(fields, k - 1).value, Entries(fields, k).value;
      var key := Key(fields[k - 1], k - 1);
      KeysOfFields(fields, k - 1, key);
      if key in d {
        assert e.Keys == d.Keys && |e| == |e.Keys| == |d.Keys| == |d|;
      } else {
        assert e.Keys == d.Keys + {key} && |e| == |e.Keys| == |d.Keys| + 1;
      }
    }
  }

  /** No field is lost if and only if no two fields have the same key. */
  lemma LosslessIffDistinct(name: string, fields: seq<Node>)
    requires Convert(Node(name, Record(fields))).Some?
    ensures var d := Convert(Node(name, Record(fields))).value;
            d.Dictionary? && (|d.entries| == |fields| <==> DistinctKeys(fields, |fields|))
  {
    SizeIffDistinct(fields, |fields|);
  }

  /** Explicit names are distinct, and none is the generated key of an unnamed field. */
  predicate NamesApart(fields: seq<Node>) {
    && (forall i, j :: 0 <= i < j < |fields| && fields[i].name != "" ==> fields[i].name != fields[j].name)
    && (forall i, j :: 0 <= i < |fields| && 0 <= j < |fields| && fields[i].name != "" && fields[j].name == "" ==>
          fields[i].name != Key(fields[j], j))
  }

  lemma NamesApartIffDistinct(fields: seq<Node>)
    ensures NamesApart(fields) <==> DistinctKeys(fields, |fields|)
  {
    forall i, j | 0 <= i < j < |fields| && fields[i].name == "" && fields[j].name == ""
      ensures Key(fields[i], i) != Key(fields[j], j)
    {
      ValueOfDecimal(i + 1);
      ValueOfDecimal(j + 1);
      SameKeys(Decimal(i + 1), Decimal(j + 1));
    }
    if DistinctKeys(fields, |fields|) {
      forall i, j | 0 <= i < |fields| && 0 <= j < |fields| && fields[i].name != "" && fields[j].name == ""
        ensures fields[i].name != Key(fields[j], j)
      {
        assert i != j;
        assert i < j ==> Key(fields[i], i) != Key(fields[j], j);
        assert j < i ==> Key(fields[j], j) != Key(fields[i], i);
      }
    }
  }

  lemma SameKeys(x: string, y: string)
    ensures "attribute" + x == "attribute" + y <==> x == y
  {
    if "attribute" + x == "attribute" + y {
      assert ("attribute" + x)[9..] == x && ("attribute" + y)[9..] == y;
    }
  }

  /** A named field has its name as key; an unnamed one "attribute" and its position, counted from one. */
  lemma KeyMeaning(field: Node, position: nat)
    ensures field.name != "" ==> Key(field, position) == field.name
    ensures field.name == "" ==>
              |Key(field, position)| > 9 && Key(field, position)[..9] == "attribute"
              && Atoi(Key(field, position)[9..]) == position + 1
  {
    hide Decimal;
    hide Atoi;
    AtoiOfDecimal(position + 1);
    assert ("attribute" + Decimal(position + 1))[9..] == Decimal(position + 1);
  }

  /** At every record below, explicit names are distinct and none is a generated key in use. */
  predicate NamesApartBelow(n: Node)
    decreases n
  {
    match n.body
    case Record(fields) =>
      NamesApart(fields) && forall i :: 0 <= i < |fields| ==> NamesApartBelow(fields[i])
    case Sequence(elements) => forall i :: 0 <= i < |elements| ==> NamesApartBelow(elements[i])
    case _ => true
  }

  /** At every depth of the data there is an entry of its own for each field of the record it comes from. */
  predicate Lossless(n: Node, d: Data)
    decreases n
  {
    match n.body
    case Record(fields) =>
      && d.Dictionary? && |d.entries| == |fields|
      && forall i :: 0 <= i < |fields| ==>
           Key(fields[i], i) in d.entries && Lossless(fields[i], d.entries[Key(fields[i], i)])
    case Sequence(elements) =>
      && d.List? && |d.items| == |elements|
      && forall i :: 0 <= i < |elements| ==> Lossless(elements[i], d.items[i])
    case _ => true
  }

  /** No field is lost at any depth if and only if names are apart at every record. */
  lemma {:induction false} LosslessIffNamesApart(n: Node)
    requires Convert(n).Some?
    ensures Lossless(n, Convert(n).value) <==> NamesApartBelow(n)
    decreases n, 1
  {
    match n.body
    case Record(fields) => RecordLossless(n, fields);
    case Sequence(elements) =>
      ListKeepsOrder(n.name, elements);
      ItemsUpTo(elements, |elements|);
      forall i | 0 <= i < |elements|
        ensures Lossless(elements[i], Convert(n).value.items[i]) <==> NamesApartBelow(elements[i])
      {
        LosslessIffNamesApart(elements[i]);
      }
    case _ =>
  }

  lemma {:induction false} RecordLossless(n: Node, fields: seq<Node>)
    requires n.body == Record(fields) && Convert(n).Some?
    ensures Lossless(n, Convert(n).value) <==> NamesApartBelow(n)
    decreases n, 0
  {
    var d := Entries(fields, |fields|).value;
    assert Convert(n).value == Dictionary(d);
    SizeIffDistinct(fields, |fields|);
    NamesApartIffDistinct(fields);
    if DistinctKeys(fields, |fields|) {
      forall i | 0 <= i < |fields|
        ensures Key(fields[i], i) in d
        ensures Lossless(fields[i], d[Key(fields[i], i)]) <==> NamesApartBelow(fields[i])
      {
        LastFieldWins(fields, |fields|, i);
        LosslessIffNamesApart(fields[i]);
      }
    }
  }

  /** Lists keep length and order, element by element, at every depth. */
  lemma ListKeepsOrder(name: string, elements: seq<Node>)
    requires Convert(Node(name, Sequence(elements))).Some?
    ensures var l := Convert(Node(name, Sequence(elements))).value;
            && l.List? && |l.items| == |elements|
            && forall i :: 0 <= i < |elements| ==> Convert(elements[i]) == Some(l.items[i])
  {
    ItemsUpTo(elements, |elements|);
  }

  /** The data has the structure of the node, at every depth. */
  /** The value set for the named field; an unset field reads as false or zero. */
  predicate Reads(v: ScalarValue, values: map<string, ScalarValue>, name: string) {
    if name in values then v == values[name]
    else if name == "bool_t" then v == Truth(false)
    else if name in {"float_t", "double_t"} then v == Floating(0.0)
    else v == Integer(0)
  }

  predicate Mirrors(n: Node, d: Data)
    decreases n
  {
    match n.body
    case Scalar(typeName, values) => d.Number? && Reads(d.value, values, typeName)
    case Enum(typeName, values) => d.Number? && Reads(d.value, values, if typeName == "" then "int32_t" else typeName)
    case Text(message) => d == Words(message)
    case Record(fields) =>
      && d.Dictionary?
      && (forall key :: key in d.entries ==> exists i :: 0 <= i < |fields| && Key(fields[i], i) == key)
      && (forall i :: 0 <= i < |fields| && LastUse(fields, |fields|, i) ==>
            Key(fields[i], i) in d.entries && Mirrors(fields[i], d.entries[Key(fields[i], i)]))
    case Sequence(elements) =>
      d.List? && |d.items| == |elements| && forall i :: 0 <= i < |elements| ==> Mirrors(elements[i], d.items[i])
    case Opaque => d == PassedThrough(n)
    case Unsupported => false
  }

  lemma {:induction false} ConversionMirrors(n: Node)
    requires Convert(n).Some?
    ensures Mirrors(n, Convert(n).value)
    decreases n
  {
    match n.body
    case Record(fields) => RecordMirrors(n, fields);
    case Sequence(elements) =>
      ListKeepsOrder(n.name, elements);
      ItemsUpTo(elements, |elements|);
      forall i | 0 <= i < |elements| ensures Mirrors(elements[i], Convert(n).value.items[i]) {
        ConversionMirrors(elements[i]);
      }
    case _ =>
  }

  lemma {:induction false} RecordMirrors(n: Node, fields: seq<Node>)
    requires n.body == Record(fields) && Convert(n).Some?
    ensures Mirrors(n, Convert(n).value)
    decreases n, 0
  {
    var d := Entries(fields, |fields|).value;
    assert Convert(n).value == Dictionary(d);
    forall key | key in d ensures exists i :: 0 <= i < |fields| && Key(fields[i], i) == key {
      KeysOfFields(fields, |fields|, key);
    }
    forall i | 0 <= i < |fields| && LastUse(fields, |fields|, i)
      ensures Key(fields[i], i) in d && Mirrors(fields[i], d[Key(fields[i], i)])
    {
      LastFieldWins(fields, |fields|, i);
      ConversionMirrors(fields[i]);
    }
  }
}
