// The parsed shapes of the `rml!` macro (rml_macros/src/structs.rs): property keys,
// literal and property values, and the node tree the parser builds. syn's token
// types become plain values: an identifier is its text, a block is its rendered code.

module Structs {
  import opened Wrappers
  import Strings
  import Values

  /** A property key: `width`, `layout.fill_width`, or a declared `signal s`. */
  datatype PropertyKey = Simple(name: string) | Composed(base: string, field: string) | Signal(name: string)
  {
    /** `PropertyKey::to_string`: composed keys are joined with an underscore. */
    function KeyString(): (r: string)
      ensures Simple? ==> r == name
      ensures Signal? ==> r == name
      ensures Composed? ==> r == base + "_" + field
    {
      match this
      case Simple(n) => n
      case Composed(b, f) => b + "_" + f
      case Signal(n) => n
    }

    /** `PropertyKey::is_signal`. */
    predicate IsSignal()
    {
      Signal?
    }
  }

  /**
   * A Rust literal. `ByteStr` carries its lossy UTF-8 decoding; `Int` and `Float` carry
   * their base-10 digits and the f32 parse (None when parsing fails); `Other` stands for
   * the literal kinds the macros do not support (C strings, verbatim literals).
   */
  datatype Lit =
    | LitStr(text: string)
    | LitByteStr(decoded: string)
    | LitChar(c: char)
    | LitInt(digits: string, parsed: Option<real>)
    | LitFloat(digits: string, parsed: Option<real>)
    | LitBool(b: bool)
    | LitByte(byte: nat)
    | LitOther

  /** A property value: a literal, an identifier, or a `{ ... }` block (its rendered code). */
  datatype Value = VLit(lit: Lit) | VIdent(ident: string) | VBlock(code: string)

  /** A function item of a node: its name and rendered body. */
  datatype FnItem = FnItem(name: string, body: string)

  /** `RmlNode`: type name, properties in source order, children, functions (hoisted). */
  datatype RmlNode = RmlNode(ident: string, properties: seq<(PropertyKey, Value)>,
                             children: seq<RmlNode>, functions: seq<FnItem>)

  /** `lit_to_string`: the supported kinds render as text, the others give None. */
  function LitToString(l: Lit): (r: Option<string>)
    ensures r.None? <==> l.LitOther?
    ensures l.LitBool? ==> r == Some(if l.b then "true" else "false")
    ensures l.LitStr? ==> r == Some(l.text)
    ensures l.LitChar? ==> r == Some([l.c])
    ensures (l.LitInt? || l.LitFloat?) ==> r == Some(l.digits)
    ensures l.LitByteStr? ==> r == Some(l.decoded)
    // a byte renders as its decimal value, digits only, without leading zeros
    ensures l.LitByte? ==>
              r.Some? && |r.value| >= 1 && Strings.DecimalValue(r.value) == l.byte &&
              (forall i :: 0 <= i < |r.value| ==> '0' <= r.value[i] <= '9') &&
              (r.value[0] == '0' ==> r.value == "0")
  {
    match l
    case LitStr(t) => Some(t)
    case LitByteStr(d) => Some(d)
    case LitChar(c) => Some([c])
    case LitInt(d, _) => Some(d)
    case LitFloat(d, _) => Some(d)
    case LitBool(b) => Some(if b then "true" else "false")
    case LitByte(n) => Some(Strings.NatToDecimal(n))
    case LitOther => None
  }

  /** `value_to_abstract_value`: the value a property starts with at run time. */
  function ValueToAbstractValue(v: Value): (r: Values.AbstractValue)
    ensures v.VBlock? ==> r == Values.Null
    ensures v.VIdent? ==> r == Values.String(v.ident)
    ensures v.VLit? && v.lit.LitStr? ==> r == Values.String(v.lit.text)
    ensures v.VLit? && v.lit.LitBool? ==> r == Values.Bool(v.lit.b)
    ensures v.VLit? && v.lit.LitOther? ==> r == Values.Null
    ensures v.VLit? && (v.lit.LitInt? || v.lit.LitFloat?) ==> r == Values.Number(v.lit.parsed.GetOr(0.0))
    ensures v.VLit? && v.lit.LitByte? ==> r == Values.Number(v.lit.byte as real)
    ensures v.VLit? && v.lit.LitByteStr? ==> r == Values.String(v.lit.decoded)
    ensures v.VLit? && v.lit.LitChar? ==> r == Values.String([v.lit.c])
  {
    match v
    case VLit(l) =>
      (match l
       case LitStr(t) => Values.String(t)
       case LitByteStr(d) => Values.String(d)
       case LitChar(c) => Values.String([c])
       case LitInt(_, p) => Values.Number(p.GetOr(0.0))
       case LitFloat(_, p) => Values.Number(p.GetOr(0.0))
       case LitBool(b) => Values.Bool(b)
       case LitByte(n) => Values.Number(n as real)
       case LitOther => Values.Null)
    case VIdent(i) => Values.String(i)
    case VBlock(_) => Values.Null
  }

  /** `Value::to_string`: blocks render as "<block>", unsupported literals as "". */
  function ValueToString(v: Value): (r: string)
    ensures v.VBlock? ==> r == "<block>"
    ensures v.VIdent? ==> r == v.ident
    ensures v.VLit? ==> r == LitToString(v.lit).GetOr("")
  {
    match v
    case VLit(l) => LitToString(l).GetOr("")
    case VIdent(i) => i
    case VBlock(_) => "<block>"
  }

  /**
   * For every textual value, the compile-time rendering agrees with the run-time
   * `AbstractValue::to_string` of the value the property starts with.
   */
  lemma TextRenderingsAgree(v: Value, formatNumber: real -> string, formatArray: seq<Values.AbstractValue> -> string)
    requires v.VIdent? || (v.VLit? && (v.lit.LitStr? || v.lit.LitByteStr? || v.lit.LitChar? || v.lit.LitBool?))
    ensures Values.ToString(ValueToAbstractValue(v), formatNumber, formatArray) == ValueToString(v)
  {
  }
}
