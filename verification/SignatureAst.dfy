/** Signature syntax trees, their II.23.2 encoding, and the measures the parser's limits refer to. */
module SignatureAst {
  import opened Wrappers
  import opened Bytes
  import opened Tokens
  import opened Compressed

  datatype SimpleType =
    | Void | Boolean | Char | I1 | U1 | I2 | U2 | I4 | U4 | I8 | U8 | R4 | R8
    | String | Object | TypedByRef | IntPtr | UIntPtr

  datatype CustomMod = CustomMod(required: bool, typeToken: Token)

  datatype ArrayShape = ArrayShape(rank: nat, sizes: seq<nat>, loBounds: seq<int>)

  datatype Type =
    | Simple(simple: SimpleType)
    | Ptr(mods: seq<CustomMod>, inner: Type)
    | ByRef(inner: Type)
    | ValueType(token: Token)
    | Class(token: Token)
    | Var(index: nat)
    | MVar(index: nat)
    | Array(element: Type, shape: ArrayShape)
    | SzArray(mods: seq<CustomMod>, inner: Type)
    | GenericInst(isValueType: bool, def: Token, args: seq<Type>)
    | FnPtr(sig: MethodSig)
    | Modified(mods: seq<CustomMod>, inner: Type)
    | Pinned(inner: Type)
    | Sentinel
    | Internal(handle: nat)

  datatype CallConv =
    | Default | VarArg | Generic(count: nat) | C | StdCall | ThisCall | FastCall
    | Unmanaged | NativeVarArg | Field | LocalSig | Property | GenericInstConv

  datatype Param = Param(mods: seq<CustomMod>, byRef: bool, type_: Type)

  datatype MethodSig = MethodSig(
    conv: CallConv, hasThis: bool, explicitThis: bool,
    ret: Param, params: seq<Param>, varargs: seq<Param>)

  datatype FieldSig = FieldSig(mods: seq<CustomMod>, type_: Type)

  datatype LocalVar = LocalVar(mods: seq<CustomMod>, pinned: bool, byRef: bool, type_: Type)

  datatype PropertySig = PropertySig(hasThis: bool, ret: Param, params: seq<Param>)

  // ELEMENT_TYPE_* bytes (II.23.1.16).

  const PTR: byte := 0x0F
  const BYREF: byte := 0x10
  const VALUETYPE: byte := 0x11
  const CLASS: byte := 0x12
  const VAR: byte := 0x13
  const ARRAY: byte := 0x14
  const GENERICINST: byte := 0x15
  const TYPEDBYREF: byte := 0x16
  const FNPTR: byte := 0x1B
  const SZARRAY: byte := 0x1D
  const MVAR: byte := 0x1E
  const CMOD_REQD: byte := 0x1F
  const CMOD_OPT: byte := 0x20
  const INTERNAL: byte := 0x21
  const SENTINEL: byte := 0x41
  const PINNED: byte := 0x45

  function SimpleCode(s: SimpleType): byte {
    match s
    case Void => 0x01
    case Boolean => 0x02
    case Char => 0x03
    case I1 => 0x04
    case U1 => 0x05
    case I2 => 0x06
    case U2 => 0x07
    case I4 => 0x08
    case U4 => 0x09
    case I8 => 0x0A
    case U8 => 0x0B
    case R4 => 0x0C
    case R8 => 0x0D
    case String => 0x0E
    case TypedByRef => 0x16
    case IntPtr => 0x18
    case UIntPtr => 0x19
    case Object => 0x1C
  }

  function SimpleOf(b: byte): Option<SimpleType> {
    match b
    case 0x01 => Some(Void)
    case 0x02 => Some(Boolean)
    case 0x03 => Some(Char)
    case 0x04 => Some(I1)
    case 0x05 => Some(U1)
    case 0x06 => Some(I2)
    case 0x07 => Some(U2)
    case 0x08 => Some(I4)
    case 0x09 => Some(U4)
    case 0x0A => Some(I8)
    case 0x0B => Some(U8)
    case 0x0C => Some(R4)
    case 0x0D => Some(R8)
    case 0x0E => Some(String)
    case 0x16 => Some(TypedByRef)
    case 0x18 => Some(IntPtr)
    case 0x19 => Some(UIntPtr)
    case 0x1C => Some(Object)
    case _ => None
  }

  /** The calling-convention nibble of a method signature; other conventions have none. */
  function ConvCode(c: CallConv): byte {
    match c
    case Default => 0x00
    case Generic(_) => 0x00
    case C => 0x01
    case StdCall => 0x02
    case ThisCall => 0x03
    case FastCall => 0x04
    case VarArg => 0x05
    case Field => 0x06
    case LocalSig => 0x07
    case Property => 0x08
    case Unmanaged => 0x09
    case GenericInstConv => 0x0A
    case NativeVarArg => 0x0B
  }

  // The encoder. A number or token outside its encodable range contributes no bytes;
  // the canonical predicates below rule such trees out.

  function EncU(v: nat): seq<byte> {
    if v <= MAX_COMPRESSED_U32 then EncodeU32(v) else []
  }

  function EncI(v: int): seq<byte> {
    if -0x1000_0000 <= v < 0x1000_0000 then EncodeI32(v) else []
  }

  function TokenTag(t: Token): Option<nat> {
    match TableOf(t)
    case None => None
    case Some(table) =>
      if table == TYPE_DEF then Some(0)
      else if table == TYPE_REF then Some(1)
      else if table == TYPE_SPEC then Some(2)
      else None
  }

  /** `TypeDefOrRefOrSpecEncoded` (II.23.2.8). */
  function EncToken(t: Token): seq<byte> {
    match TokenTag(t)
    case None => []
    case Some(tag) => EncU(4 * RidOf(t) + tag)
  }

  function EncMods(mods: seq<CustomMod>): seq<byte> {
    if mods == [] then []
    else [if mods[0].required then CMOD_REQD else CMOD_OPT] + EncToken(mods[0].typeToken) + EncMods(mods[1..])
  }

  function EncUs(vs: seq<nat>): seq<byte> {
    if vs == [] then [] else EncU(vs[0]) + EncUs(vs[1..])
  }

  function EncIs(vs: seq<int>): seq<byte> {
    if vs == [] then [] else EncI(vs[0]) + EncIs(vs[1..])
  }

  /** What follows the rank in an array shape (II.23.2.13). */
  function EncBounds(shape: ArrayShape): seq<byte> {
    EncU(|shape.sizes|) + (EncUs(shape.sizes) + (EncU(|shape.loBounds|) + EncIs(shape.loBounds)))
  }

  function EncType(t: Type): seq<byte>
    decreases t
  {
    match t
    case Simple(s) => [SimpleCode(s)]
    case Ptr(mods, inner) => [PTR] + (EncMods(mods) + EncType(inner))
    case ByRef(inner) => [BYREF] + EncType(inner)
    case ValueType(token) => [VALUETYPE] + EncToken(token)
    case Class(token) => [CLASS] + EncToken(token)
    case Var(index) => [VAR] + EncU(index)
    case MVar(index) => [MVAR] + EncU(index)
    case Array(element, shape) => [ARRAY] + (EncType(element) + (EncU(shape.rank) + EncBounds(shape)))
    case SzArray(mods, inner) => [SZARRAY] + (EncMods(mods) + EncType(inner))
    case GenericInst(isValueType, def, args) =>
      [GENERICINST, if isValueType then VALUETYPE else CLASS] + (EncToken(def) + (EncU(|args|) + EncTypes(args)))
    case FnPtr(sig) => [FNPTR] + EncSig(sig)
    case Modified(mods, inner) => EncMods(mods) + EncType(inner)
    case Pinned(inner) => [PINNED] + EncType(inner)
    case Sentinel => [SENTINEL]
    case Internal(_) => [INTERNAL]
  }

  function EncTypes(ts: seq<Type>): seq<byte>
    decreases ts
  {
    if ts == [] then [] else EncType(ts[0]) + EncTypes(ts[1..])
  }

  function EncParam(p: Param): seq<byte>
    decreases p
  {
    EncMods(p.mods) + ((if p.byRef then [BYREF] else []) + EncType(p.type_))
  }

  function EncParams(ps: seq<Param>): seq<byte>
    decreases ps, 0
  {
    if ps == [] then [] else EncParam(ps[0]) + EncParams(ps[1..])
  }

  /** The parameters after a `SENTINEL`, with the sentinel in front of the first of them. */
  function EncVarargs(ps: seq<Param>): seq<byte>
    decreases ps, 1
  {
    if ps == [] then [] else [SENTINEL] + EncParams(ps)
  }

  function SigByte(m: MethodSig): byte {
    ConvCode(m.conv)
    + (if m.conv.Generic? then 0x10 else 0)
    + (if m.hasThis then 0x20 else 0)
    + (if m.explicitThis then 0x40 else 0)
  }

  function EncSigBody(m: MethodSig): seq<byte>
    decreases m, 0
  {
    EncU(|m.params| + |m.varargs|) + (EncParam(m.ret) + (EncParams(m.params) + EncVarargs(m.varargs)))
  }

  function EncSig(m: MethodSig): seq<byte>
    decreases m, 1
  {
    [SigByte(m)] + ((if m.conv.Generic? then EncU(m.conv.count) else []) + EncSigBody(m))
  }

  function EncField(f: FieldSig): seq<byte> {
    [0x06] + (EncMods(f.mods) + EncType(f.type_))
  }

  /** A local with `split` of its modifiers written before `PINNED` and the rest after it (II.23.2.6). */
  function EncLocal(l: LocalVar, split: nat): seq<byte>
    requires split <= |l.mods|
  {
    EncMods(l.mods[..split])
    + ((if l.pinned then [PINNED] else [])
       + (EncMods(l.mods[split..]) + ((if l.byRef then [BYREF] else []) + EncType(l.type_))))
  }

  function EncLocals(ls: seq<LocalVar>, splits: seq<nat>): seq<byte>
    requires |splits| == |ls| && forall i | 0 <= i < |ls| :: splits[i] <= |ls[i].mods|
  {
    if ls == [] then [] else EncLocal(ls[0], splits[0]) + EncLocals(ls[1..], splits[1..])
  }

  function EncLocalSig(ls: seq<LocalVar>, splits: seq<nat>): seq<byte>
    requires |splits| == |ls| && forall i | 0 <= i < |ls| :: splits[i] <= |ls[i].mods|
  {
    [0x07] + (EncU(|ls|) + EncLocals(ls, splits))
  }

  function EncProperty(p: PropertySig): seq<byte> {
    [if p.hasThis then 0x28 else 0x08] + (EncU(|p.params|) + (EncParam(p.ret) + EncParams(p.params)))
  }

  function EncMethodSpec(args: seq<Type>): seq<byte> {
    [0x0A] + (EncU(|args|) + EncTypes(args))
  }

  // Canonical trees: the ones the grammar can spell and the parser can return.

  predicate CanonMods(mods: seq<CustomMod>) {
    forall m | m in mods :: TokenTag(m.typeToken).Some?
  }

  predicate CanonShape(shape: ArrayShape) {
    && shape.rank <= MAX_COMPRESSED_U32
    && |shape.sizes| <= MAX_COMPRESSED_U32
    && |shape.loBounds| <= MAX_COMPRESSED_U32
    && (forall v | v in shape.sizes :: v <= MAX_COMPRESSED_U32)
    && (forall v | v in shape.loBounds :: -0x1000_0000 <= v < 0x1000_0000)
  }

  /**
   * `pinned` says whether the type sits beneath a `PINNED`. Modifiers always belong to the
   * innermost construct that can hold them, and no `Sentinel` or `Internal` occurs.
   */
  predicate CanonType(t: Type, pinned: bool)
    decreases t
  {
    match t
    case Simple(_) => true
    case Ptr(mods, inner) => CanonMods(mods) && !inner.Modified? && CanonType(inner, pinned)
    case ByRef(inner) => CanonType(inner, pinned)
    case ValueType(token) => TokenTag(token).Some?
    case Class(token) => TokenTag(token).Some?
    case Var(index) => index <= MAX_COMPRESSED_U32
    case MVar(index) => index <= MAX_COMPRESSED_U32
    case Array(element, shape) => CanonType(element, pinned) && CanonShape(shape)
    case SzArray(mods, inner) => CanonMods(mods) && !inner.Modified? && CanonType(inner, pinned)
    case GenericInst(_, def, args) =>
      TokenTag(def).Some? && |args| <= MAX_COMPRESSED_U32 && CanonTypes(args, pinned)
    case FnPtr(sig) => CanonSig(sig, pinned)
    case Modified(mods, inner) => mods != [] && CanonMods(mods) && !inner.Modified? && CanonType(inner, pinned)
    case Pinned(inner) => !pinned && CanonType(inner, true)
    case Sentinel => false
    case Internal(_) => false
  }

  predicate CanonTypes(ts: seq<Type>, pinned: bool)
    decreases ts
  {
    ts == [] || (CanonType(ts[0], pinned) && CanonTypes(ts[1..], pinned))
  }

  predicate CanonParam(p: Param, pinned: bool)
    decreases p
  {
    CanonMods(p.mods) && CanonType(p.type_, pinned) && (p.byRef || (!p.type_.Modified? && !p.type_.ByRef?))
  }

  predicate CanonParams(ps: seq<Param>, pinned: bool)
    decreases ps
  {
    ps == [] || (CanonParam(ps[0], pinned) && CanonParams(ps[1..], pinned))
  }

  predicate CanonConv(c: CallConv) {
    match c
    case Generic(n) => n <= MAX_COMPRESSED_U32
    case Field => false
    case LocalSig => false
    case Property => false
    case GenericInstConv => false
    case _ => true
  }

  predicate CanonSig(m: MethodSig, pinned: bool)
    decreases m
  {
    && CanonConv(m.conv)
    && |m.params| + |m.varargs| <= MAX_COMPRESSED_U32
    && CanonParam(m.ret, pinned)
    && CanonParams(m.params, pinned)
    && CanonParams(m.varargs, pinned)
  }

  predicate CanonLocal(l: LocalVar) {
    && CanonMods(l.mods)
    && CanonType(l.type_, false)
    && !l.type_.Pinned?
    && (l.byRef || (!l.type_.Modified? && !l.type_.ByRef?))
  }

  // Nesting depth as `enter` counts it: one per type, one more per method signature.

  function Depth(t: Type): nat
    decreases t
  {
    1 + match t
        case Ptr(_, inner) => Depth(inner)
        case ByRef(inner) => Depth(inner)
        case Array(element, _) => Depth(element)
        case SzArray(_, inner) => Depth(inner)
        case GenericInst(_, _, args) => DepthTypes(args)
        case FnPtr(sig) => DepthSig(sig)
        case Modified(_, inner) => Depth(inner)
        case Pinned(inner) => Depth(inner)
        case _ => 0
  }

  function DepthTypes(ts: seq<Type>): nat
    decreases ts
  {
    if ts == [] then 0 else Max(Depth(ts[0]), DepthTypes(ts[1..]))
  }

  function DepthParams(ps: seq<Param>): nat
    decreases ps
  {
    if ps == [] then 0 else Max(Depth(ps[0].type_), DepthParams(ps[1..]))
  }

  function DepthSig(m: MethodSig): nat
    decreases m
  {
    1 + Max(Depth(m.ret.type_), Max(DepthParams(m.params), DepthParams(m.varargs)))
  }

  // The longest run of custom modifiers anywhere in the tree.

  function LongestMods(t: Type): nat
    decreases t
  {
    match t
    case Ptr(mods, inner) => Max(|mods|, LongestMods(inner))
    case ByRef(inner) => LongestMods(inner)
    case Array(element, _) => LongestMods(element)
    case SzArray(mods, inner) => Max(|mods|, LongestMods(inner))
    case GenericInst(_, _, args) => LongestModsTypes(args)
    case FnPtr(sig) => LongestModsSig(sig)
    case Modified(mods, inner) => Max(|mods|, LongestMods(inner))
    case Pinned(inner) => LongestMods(inner)
    case _ => 0
  }

  function LongestModsTypes(ts: seq<Type>): nat
    decreases ts
  {
    if ts == [] then 0 else Max(LongestMods(ts[0]), LongestModsTypes(ts[1..]))
  }

  function LongestModsParam(p: Param): nat
    decreases p
  {
    Max(|p.mods|, LongestMods(p.type_))
  }

  function LongestModsParams(ps: seq<Param>): nat
    decreases ps
  {
    if ps == [] then 0 else Max(LongestModsParam(ps[0]), LongestModsParams(ps[1..]))
  }

  function LongestModsSig(m: MethodSig): nat
    decreases m
  {
    Max(LongestModsParam(m.ret), Max(LongestModsParams(m.params), LongestModsParams(m.varargs)))
  }

  // The rank guard: an array's rank may exceed the bytes left after it by at most one, so it
  // depends on `after`, the number of bytes that follow the construct in its blob.

  predicate RanksOk(t: Type, after: nat)
    decreases t
  {
    match t
    case Ptr(_, inner) => RanksOk(inner, after)
    case ByRef(inner) => RanksOk(inner, after)
    case Array(element, shape) =>
      && RanksOk(element, |EncU(shape.rank) + EncBounds(shape)| + after)
      && shape.rank <= |EncBounds(shape)| + after + 1
    case SzArray(_, inner) => RanksOk(inner, after)
    case GenericInst(_, _, args) => RanksOkTypes(args, after)
    case FnPtr(sig) => RanksOkSig(sig, after)
    case Modified(_, inner) => RanksOk(inner, after)
    case Pinned(inner) => RanksOk(inner, after)
    case _ => true
  }

  predicate RanksOkTypes(ts: seq<Type>, after: nat)
    decreases ts
  {
    ts == [] || (RanksOk(ts[0], |EncTypes(ts[1..])| + after) && RanksOkTypes(ts[1..], after))
  }

  predicate RanksOkParams(ps: seq<Param>, after: nat)
    decreases ps
  {
    ps == [] || (RanksOk(ps[0].type_, |EncParams(ps[1..])| + after) && RanksOkParams(ps[1..], after))
  }

  predicate RanksOkSig(m: MethodSig, after: nat)
    decreases m
  {
    && RanksOk(m.ret.type_, |EncParams(m.params) + EncVarargs(m.varargs)| + after)
    && RanksOkParams(m.params, |EncVarargs(m.varargs)| + after)
    && RanksOkParams(m.varargs, after)
  }

  // Tree size: types, signatures and modifiers.

  function Nodes(t: Type): nat
    decreases t
  {
    1 + match t
        case Ptr(mods, inner) => |mods| + Nodes(inner)
        case ByRef(inner) => Nodes(inner)
        case Array(element, shape) => Nodes(element) + |shape.sizes| + |shape.loBounds|
        case SzArray(mods, inner) => |mods| + Nodes(inner)
        case GenericInst(_, _, args) => NodesTypes(args)
        case FnPtr(sig) => NodesSig(sig)
        case Modified(mods, inner) => |mods| + Nodes(inner)
        case Pinned(inner) => Nodes(inner)
        case _ => 0
  }

  function NodesTypes(ts: seq<Type>): nat
    decreases ts
  {
    if ts == [] then 0 else Nodes(ts[0]) + NodesTypes(ts[1..])
  }

  function NodesParams(ps: seq<Param>): nat
    decreases ps
  {
    if ps == [] then 0 else |ps[0].mods| + Nodes(ps[0].type_) + NodesParams(ps[1..])
  }

  function NodesSig(m: MethodSig): nat
    decreases m
  {
    1 + |m.ret.mods| + Nodes(m.ret.type_) + NodesParams(m.params) + NodesParams(m.varargs)
  }
}
