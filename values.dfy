/**
  Python objects as the agent sees them: the value a generated script leaves in
  `result`, the entries of the file context and the bindings of an execution
  scope.  Library objects (DataFrames, byte buffers, modules) are opaque leaves.
  `ToNative` is the agent's `_convert_to_native_types`.
 */
module Values {

  type byte = x: int | 0 <= x < 256

  /** What `pd.read_csv` produced; the model never looks inside. */
  datatype Frame = Frame(header: seq<string>, rows: seq<seq<string>>)

  datatype Value =
    | NoneV                              // None
    | Bool(b: bool)                      // bool
    | Int(i: int)                        // int
    | Float(x: real)                     // float
    | Str(s: string)                     // str
    | NpBool(b: bool)                    // numpy.bool_
    | NpInt(i: int)                      // any numpy.integer
    | NpFloat(x: real)                   // any numpy.floating
    | List(items: seq<Value>)            // list
    | Dict(entries: seq<(Value, Value)>) // dict, in insertion order
    | Tuple(items: seq<Value>)           // tuple
    | DataFrame(frame: Frame)            // pandas.DataFrame
    | Buffer(bytes: seq<byte>)           // io.BytesIO
    | Library(name: string)              // a module or class bound in the scope

  /** True when no numpy scalar is left where the conversion looks: in the value
      itself, in list elements and in dict values, at every depth.  Tuples,
      dict keys and library objects are not looked into. */
  predicate Native(v: Value) {
    match v
    case NpBool(_) => false
    case NpInt(_) => false
    case NpFloat(_) => false
    case List(items) => forall i :: 0 <= i < |items| ==> Native(items[i])
    case Dict(entries) => forall i :: 0 <= i < |entries| ==> Native(entries[i].1)
    case _ => true
  }

  /** The keys of a dict, in order. */
  function Keys(entries: seq<(Value, Value)>): (ks: seq<Value>)
    ensures |ks| == |entries|
    ensures forall i :: 0 <= i < |entries| ==> ks[i] == entries[i].0
  {
    seq(|entries|, i requires 0 <= i < |entries| => entries[i].0)
  }

  /** `_convert_to_native_types`: lists element-wise, dicts value-wise (same
      keys, same order), numpy integer/floating/bool scalars to int/float/bool,
      everything else (tuples included) returned as it is. */
  function ToNative(v: Value): (r: Value)
    ensures Native(r)
    ensures r.List? <==> v.List?
    ensures r.List? ==> |r.items| == |v.items|
    ensures r.Dict? <==> v.Dict?
    ensures r.Dict? ==> Keys(r.entries) == Keys(v.entries)
    ensures !v.List? && !v.Dict? && !v.NpBool? && !v.NpInt? && !v.NpFloat? ==> r == v
  {
    match v
    case List(items) =>
      List(seq(|items|, i requires 0 <= i < |items| => ToNative(items[i])))
    case Dict(entries) =>
      Dict(seq(|entries|, i requires 0 <= i < |entries| => (entries[i].0, ToNative(entries[i].1))))
    case NpInt(n) => Int(n)
    case NpFloat(x) => Float(x)
    case NpBool(b) => Bool(b)
    case _ => v
  }

  /** What a value stands for as plain data: a numpy scalar and the native
      scalar of the same kind and number stand for the same thing; lists and
      dicts stand for the tree of what their elements stand for; anything the
      conversion does not look into stands for itself. */
  datatype Plain =
    | PNone
    | PBool(b: bool)
    | PInt(i: int)
    | PFloat(x: real)
    | PStr(s: string)
    | PList(items: seq<Plain>)
    | PDict(entries: seq<(Value, Plain)>)
    | POpaque(v: Value)

  function Meaning(v: Value): Plain {
    match v
    case NoneV => PNone
    case Bool(b) => PBool(b)
    case NpBool(b) => PBool(b)
    case Int(i) => PInt(i)
    case NpInt(i) => PInt(i)
    case Float(x) => PFloat(x)
    case NpFloat(x) => PFloat(x)
    case Str(s) => PStr(s)
    case List(items) => PList(seq(|items|, i requires 0 <= i < |items| => Meaning(items[i])))
    case Dict(entries) =>
      PDict(seq(|entries|, i requires 0 <= i < |entries| => (entries[i].0, Meaning(entries[i].1))))
    case _ => POpaque(v)
  }

  /** The conversion never changes what a value stands for. */
  lemma {:induction false} ToNativePreservesMeaning(v: Value)
    ensures Meaning(ToNative(v)) == Meaning(v)
  {
    match v
    case List(items) =>
      forall i | 0 <= i < |items| {
        ToNativePreservesMeaning(items[i]);
      }
    case Dict(entries) =>
      forall i | 0 <= i < |entries| {
        ToNativePreservesMeaning(entries[i].1);
      }
    case _ =>
  }

  /** Two native values that stand for the same thing are the same value. */
  lemma {:induction false} NativeDeterminedByMeaning(a: Value, b: Value)
    requires Native(a) && Native(b)
    requires Meaning(a) == Meaning(b)
    ensures a == b
  {
    match a
    case List(items) =>
      assert b.List? && |b.items| == |items|;
      forall i | 0 <= i < |items|
        ensures items[i] == b.items[i]
      {
        assert Meaning(a).items[i] == Meaning(items[i]);
        assert Meaning(b).items[i] == Meaning(b.items[i]);
        NativeDeterminedByMeaning(items[i], b.items[i]);
      }
    case Dict(entries) =>
      assert b.Dict? && |b.entries| == |entries|;
      forall i | 0 <= i < |entries|
        ensures entries[i] == b.entries[i]
      {
        assert Meaning(a).entries[i] == (entries[i].0, Meaning(entries[i].1));
        assert Meaning(b).entries[i] == (b.entries[i].0, Meaning(b.entries[i].1));
        NativeDeterminedByMeaning(entries[i].1, b.entries[i].1);
      }
    case _ =>
  }

  /** The conversion is the one native value that stands for the same thing as
      its input. */
  lemma ToNativeCharacterized(v: Value, r: Value)
    ensures r == ToNative(v) <==> Native(r) && Meaning(r) == Meaning(v)
  {
    ToNativePreservesMeaning(v);
    if Native(r) && Meaning(r) == Meaning(v) {
      NativeDeterminedByMeaning(r, ToNative(v));
    }
  }

  /** Values that are already native are left untouched. */
  lemma ToNativeFixesNative(v: Value)
    requires Native(v)
    ensures ToNative(v) == v
  {
    ToNativeCharacterized(v, v);
  }

  /** Converting twice is converting once. */
  lemma ToNativeIdempotent(v: Value)
    ensures ToNative(ToNative(v)) == ToNative(v)
  {
    ToNativeFixesNative(ToNative(v));
  }

  /** A list keeps its length and order: element i of the result is element i
      of the input converted, and a numpy scalar anywhere in a nested list
      becomes the native scalar of the same kind and number. */
  lemma ListConvertedElementwise(items: seq<Value>, i: nat)
    requires i < |items|
    ensures ToNative(List(items)).items[i] == ToNative(items[i])
    ensures items[i].NpFloat? ==> ToNative(List(items)).items[i] == Float(items[i].x)
    ensures items[i].NpInt? ==> ToNative(List(items)).items[i] == Int(items[i].i)
    ensures items[i].NpBool? ==> ToNative(List(items)).items[i] == Bool(items[i].b)
  {
  }

  /** Tuples, and the numpy scalars inside them, are returned unchanged. */
  lemma TupleUnchanged(items: seq<Value>)
    ensures ToNative(Tuple(items)) == Tuple(items)
  {
  }
}
