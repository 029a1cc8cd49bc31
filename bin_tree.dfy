/**
 * The typed field tree of a BIN document, as pyRitoFile's reader produces it
 * (the reader itself is not part of this model). Only the distinctions the
 * repathing code makes are kept: a STRING, an embed or pointer whose payload
 * may be null, a LIST or LIST2 of values, a MAP of key/value pairs, an OPTION
 * holding zero or one value, and every other kind as an opaque scalar.
 * A container's declared element types are implied by its payload.
 */
module BinTree {
  import opened Wrappers

  datatype ScalarKind =
    | NoneKind | Bool | I8 | U8 | I16 | U16 | I32 | U32 | I64 | U64 | F32
    | Vec2 | Vec3 | Vec4 | Mtx44 | Rgba | Hash | File | Link | Flag

  datatype StructKind = Embed | Pointer

  /** A value that can stand alone or inside a LIST, MAP or OPTION. */
  datatype Value =
    | Scalar(kind: ScalarKind, bits: seq<int>)
    | Str(text: string)
    | Struct(structKind: StructKind, classHash: nat, body: Body)

  /** The payload of an embed or pointer: `None` in Python is `Null` here. */
  datatype Body = Null | Fields(fields: seq<Field>)

  /** What a field holds, selected by the field's declared type. */
  datatype Payload =
    | Single(v: Value)
    | Items(isList2: bool, items: seq<Value>)
    | Dict(pairs: seq<(Value, Value)>)
    | Opt(inner: Option<Value>)

  datatype Field = Field(name: nat, payload: Payload)

  datatype Entry = Entry(hash: nat, typeHash: nat, fields: seq<Field>)

  /** A BIN document: the documents it links to, then its entries. */
  datatype Document = Document(links: seq<string>, entries: seq<Entry>)

  /*
   * The strings a walk of the tree reaches, in visiting order. This is the
   * shared traversal of `scan`, `bum` and `_pyntex_parse_bin`: a STRING
   * reached directly, through a LIST/LIST2 element, through the fields of a
   * non-null embed/pointer, through a MAP key or value, or as the value of an
   * OPTION that holds a STRING. Nothing inside an OPTION of another type is
   * reached.
   */

  function ValueStrings(v: Value): seq<string>
    decreases v, 1
  {
    match v
    case Scalar(_, _) => []
    case Str(s) => [s]
    case Struct(_, _, body) => BodyStrings(body)
  }

  function BodyStrings(body: Body): seq<string>
    decreases body, 1
  {
    match body
    case Null => []
    case Fields(fs) => FieldsStrings(fs)
  }

  function ValuesStrings(vs: seq<Value>): seq<string>
    decreases vs, 0
  {
    if vs == [] then [] else ValueStrings(vs[0]) + ValuesStrings(vs[1..])
  }

  function PairsStrings(ps: seq<(Value, Value)>): seq<string>
    decreases ps, 0
  {
    if ps == [] then []
    else PairStrings(ps[0]) + PairsStrings(ps[1..])
  }

  function PairStrings(p: (Value, Value)): seq<string>
    decreases p, 1
  {
    ValueStrings(p.0) + ValueStrings(p.1)
  }

  function FieldStrings(f: Field): seq<string>
    decreases f, 2
  {
    match f.payload
    case Single(v) => ValueStrings(v)
    case Items(_, vs) => ValuesStrings(vs)
    case Dict(ps) => PairsStrings(ps)
    case Opt(Some(Str(s))) => [s]
    case Opt(_) => []
  }

  function FieldsStrings(fs: seq<Field>): seq<string>
    decreases fs, 0
  {
    if fs == [] then [] else FieldStrings(fs[0]) + FieldsStrings(fs[1..])
  }

  function EntryStrings(e: Entry): seq<string> {
    FieldsStrings(e.fields)
  }
}
