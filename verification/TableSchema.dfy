/**
 * The metadata schema: the columns of every table (src/tables/rows.rs, section II.22 of ECMA-335
 * and the Portable PDB tables), the coded index kinds (src/tables/coded.rs, section II.24.2.6)
 * and the sort keys (src/tables/lookup.rs).
 */
module TableSchema {
  import opened Wrappers
  import opened Tokens

  datatype CodedIndex =
    | TypeDefOrRef
    | HasConstant
    | HasCustomAttribute
    | HasFieldMarshal
    | HasDeclSecurity
    | MemberRefParent
    | HasSemantics
    | MethodDefOrRef
    | MemberForwarded
    | Implementation
    | CustomAttributeType
    | ResolutionScope
    | TypeOrMethodDef
    | HasCustomDebugInformation

  datatype ColumnKind = U16 | U32 | StringIndex | BlobIndex | GuidIndex | Rid(target: TableId) | Coded(kind: CodedIndex)

  /** Two to the number of tag bits. */
  function TagSize(k: CodedIndex): (n: nat)
    ensures n == 2 || n == 4 || n == 8 || n == 32
  {
    match k
    case TypeDefOrRef => 4
    case HasConstant => 4
    case HasCustomAttribute => 32
    case HasFieldMarshal => 2
    case HasDeclSecurity => 4
    case MemberRefParent => 8
    case HasSemantics => 2
    case MethodDefOrRef => 2
    case MemberForwarded => 2
    case Implementation => 4
    case CustomAttributeType => 8
    case ResolutionScope => 4
    case TypeOrMethodDef => 2
    case HasCustomDebugInformation => 32
  }

  /** The table each tag selects; `None` is a tag the standard leaves undefined. */
  function TablesOf(k: CodedIndex): seq<Option<TableId>> {
    match k
    case TypeDefOrRef =>
      [Some(TYPE_DEF), Some(TYPE_REF), Some(TYPE_SPEC)]
    case HasConstant =>
      [Some(FIELD), Some(PARAM), Some(PROPERTY)]
    case HasCustomAttribute =>
      [Some(METHOD_DEF), Some(FIELD), Some(TYPE_REF), Some(TYPE_DEF), Some(PARAM), Some(INTERFACE_IMPL),
       Some(MEMBER_REF), Some(MODULE), Some(DECL_SECURITY), Some(PROPERTY), Some(EVENT),
       Some(STAND_ALONE_SIG), Some(MODULE_REF), Some(TYPE_SPEC), Some(ASSEMBLY), Some(ASSEMBLY_REF),
       Some(FILE), Some(EXPORTED_TYPE), Some(MANIFEST_RESOURCE), Some(GENERIC_PARAM),
       Some(GENERIC_PARAM_CONSTRAINT), Some(METHOD_SPEC)]
    case HasFieldMarshal =>
      [Some(FIELD), Some(PARAM)]
    case HasDeclSecurity =>
      [Some(TYPE_DEF), Some(METHOD_DEF), Some(ASSEMBLY)]
    case MemberRefParent =>
      [Some(TYPE_DEF), Some(TYPE_REF), Some(MODULE_REF), Some(METHOD_DEF), Some(TYPE_SPEC)]
    case HasSemantics =>
      [Some(EVENT), Some(PROPERTY)]
    case MethodDefOrRef =>
      [Some(METHOD_DEF), Some(MEMBER_REF)]
    case MemberForwarded =>
      [Some(FIELD), Some(METHOD_DEF)]
    case Implementation =>
      [Some(FILE), Some(ASSEMBLY_REF), Some(EXPORTED_TYPE)]
    case CustomAttributeType =>
      [None, None, Some(METHOD_DEF), Some(MEMBER_REF), None]
    case ResolutionScope =>
      [Some(MODULE), Some(MODULE_REF), Some(ASSEMBLY_REF), Some(TYPE_REF)]
    case TypeOrMethodDef =>
      [Some(TYPE_DEF), Some(METHOD_DEF)]
    case HasCustomDebugInformation =>
      [Some(METHOD_DEF), Some(FIELD), Some(TYPE_REF), Some(TYPE_DEF), Some(PARAM), Some(INTERFACE_IMPL),
       Some(MEMBER_REF), Some(MODULE), Some(DECL_SECURITY), Some(PROPERTY), Some(EVENT),
       Some(STAND_ALONE_SIG), Some(MODULE_REF), Some(TYPE_SPEC), Some(ASSEMBLY), Some(ASSEMBLY_REF),
       Some(FILE), Some(EXPORTED_TYPE), Some(MANIFEST_RESOURCE), Some(GENERIC_PARAM),
       Some(GENERIC_PARAM_CONSTRAINT), Some(METHOD_SPEC), Some(DOCUMENT), Some(LOCAL_SCOPE),
       Some(LOCAL_VARIABLE), Some(LOCAL_CONSTANT), Some(IMPORT_SCOPE)]
  }

  function ColumnsOf(t: TableId): seq<ColumnKind> {
    if t == MODULE then [U16, StringIndex, GuidIndex, GuidIndex, GuidIndex]
    else if t == TYPE_REF then [Coded(ResolutionScope), StringIndex, StringIndex]
    else if t == TYPE_DEF then [U32, StringIndex, StringIndex, Coded(TypeDefOrRef), Rid(FIELD), Rid(METHOD_DEF)]
    else if t == FIELD_PTR then [Rid(FIELD)]
    else if t == FIELD then [U16, StringIndex, BlobIndex]
    else if t == METHOD_PTR then [Rid(METHOD_DEF)]
    else if t == METHOD_DEF then [U32, U16, U16, StringIndex, BlobIndex, Rid(PARAM)]
    else if t == PARAM_PTR then [Rid(PARAM)]
    else if t == PARAM then [U16, U16, StringIndex]
    else if t == INTERFACE_IMPL then [Rid(TYPE_DEF), Coded(TypeDefOrRef)]
    else if t == MEMBER_REF then [Coded(MemberRefParent), StringIndex, BlobIndex]
    else if t == CONSTANT then [U16, Coded(HasConstant), BlobIndex]
    else if t == CUSTOM_ATTRIBUTE then [Coded(HasCustomAttribute), Coded(CustomAttributeType), BlobIndex]
    else if t == FIELD_MARSHAL then [Coded(HasFieldMarshal), BlobIndex]
    else if t == DECL_SECURITY then [U16, Coded(HasDeclSecurity), BlobIndex]
    else if t == CLASS_LAYOUT then [U16, U32, Rid(TYPE_DEF)]
    else if t == FIELD_LAYOUT then [U32, Rid(FIELD)]
    else if t == STAND_ALONE_SIG then [BlobIndex]
    else if t == EVENT_MAP then [Rid(TYPE_DEF), Rid(EVENT)]
    else if t == EVENT_PTR then [Rid(EVENT)]
    else if t == EVENT then [U16, StringIndex, Coded(TypeDefOrRef)]
    else if t == PROPERTY_MAP then [Rid(TYPE_DEF), Rid(PROPERTY)]
    else if t == PROPERTY_PTR then [Rid(PROPERTY)]
    else if t == PROPERTY then [U16, StringIndex, BlobIndex]
    else if t == METHOD_SEMANTICS then [U16, Rid(METHOD_DEF), Coded(HasSemantics)]
    else if t == METHOD_IMPL then [Rid(TYPE_DEF), Coded(MethodDefOrRef), Coded(MethodDefOrRef)]
    else if t == MODULE_REF then [StringIndex]
    else if t == TYPE_SPEC then [BlobIndex]
    else if t == IMPL_MAP then [U16, Coded(MemberForwarded), StringIndex, Rid(MODULE_REF)]
    else if t == FIELD_RVA then [U32, Rid(FIELD)]
    else if t == ENC_LOG then [U32, U32]
    else if t == ENC_MAP then [U32]
    else if t == ASSEMBLY then [U32, U16, U16, U16, U16, U32, BlobIndex, StringIndex, StringIndex]
    else if t == ASSEMBLY_PROCESSOR then [U32]
    else if t == ASSEMBLY_OS then [U32, U32, U32]
    else if t == ASSEMBLY_REF then [U16, U16, U16, U16, U32, BlobIndex, StringIndex, StringIndex, BlobIndex]
    else if t == ASSEMBLY_REF_PROCESSOR then [U32, Rid(ASSEMBLY_REF)]
    else if t == ASSEMBLY_REF_OS then [U32, U32, U32, Rid(ASSEMBLY_REF)]
    else if t == FILE then [U32, StringIndex, BlobIndex]
    else if t == EXPORTED_TYPE then [U32, U32, StringIndex, StringIndex, Coded(Implementation)]
    else if t == MANIFEST_RESOURCE then [U32, U32, StringIndex, Coded(Implementation)]
    else if t == NESTED_CLASS then [Rid(TYPE_DEF), Rid(TYPE_DEF)]
    else if t == GENERIC_PARAM then [U16, U16, Coded(TypeOrMethodDef), StringIndex]
    else if t == METHOD_SPEC then [Coded(MethodDefOrRef), BlobIndex]
    else if t == GENERIC_PARAM_CONSTRAINT then [Rid(GENERIC_PARAM), Coded(TypeDefOrRef)]
    else if t == DOCUMENT then [BlobIndex, GuidIndex, BlobIndex, GuidIndex]
    else if t == METHOD_DEBUG_INFORMATION then [Rid(DOCUMENT), BlobIndex]
    else if t == LOCAL_SCOPE then [Rid(METHOD_DEF), Rid(IMPORT_SCOPE), Rid(LOCAL_VARIABLE), Rid(LOCAL_CONSTANT), U32, U32]
    else if t == LOCAL_VARIABLE then [U16, U16, StringIndex]
    else if t == LOCAL_CONSTANT then [StringIndex, BlobIndex]
    else if t == IMPORT_SCOPE then [Rid(IMPORT_SCOPE), BlobIndex]
    else if t == STATE_MACHINE_METHOD then [Rid(METHOD_DEF), Rid(METHOD_DEF)]
    else [Coded(HasCustomDebugInformation), GuidIndex, BlobIndex]
  }

  /** Which column keyed lookups search; most tables have none. */
  function SortKeyColumn(t: TableId): Option<nat> {
    if t == INTERFACE_IMPL then Some(0)
    else if t == CONSTANT then Some(1)
    else if t == CUSTOM_ATTRIBUTE then Some(0)
    else if t == FIELD_MARSHAL then Some(0)
    else if t == DECL_SECURITY then Some(1)
    else if t == CLASS_LAYOUT then Some(2)
    else if t == FIELD_LAYOUT then Some(1)
    else if t == EVENT_MAP then Some(0)
    else if t == PROPERTY_MAP then Some(0)
    else if t == METHOD_SEMANTICS then Some(2)
    else if t == METHOD_IMPL then Some(0)
    else if t == IMPL_MAP then Some(1)
    else if t == FIELD_RVA then Some(1)
    else if t == NESTED_CLASS then Some(0)
    else if t == GENERIC_PARAM then Some(2)
    else if t == GENERIC_PARAM_CONSTRAINT then Some(0)
    else if t == LOCAL_SCOPE then Some(0)
    else if t == STATE_MACHINE_METHOD then Some(0)
    else if t == CUSTOM_DEBUG_INFORMATION then Some(0)
    else None
  }

  /** How keyed lookups encode a parent; `None` means by its bare row id. */
  function SortKeyCoded(t: TableId): Option<CodedIndex> {
    if t == CONSTANT then Some(HasConstant)
    else if t == CUSTOM_ATTRIBUTE then Some(HasCustomAttribute)
    else if t == FIELD_MARSHAL then Some(HasFieldMarshal)
    else if t == DECL_SECURITY then Some(HasDeclSecurity)
    else if t == METHOD_SEMANTICS then Some(HasSemantics)
    else if t == IMPL_MAP then Some(MemberForwarded)
    else if t == GENERIC_PARAM then Some(TypeOrMethodDef)
    else if t == CUSTOM_DEBUG_INFORMATION then Some(HasCustomDebugInformation)
    else None
  }

  // A schema is passed around as a value: 64 slots, one per table id, empty where no table is defined.

  type Schema = s: seq<seq<ColumnKind>> | |s| == 64 witness seq(64, i => [])

  const MAX_COLUMNS: nat := 9

  ghost predicate ValidSchema(schema: Schema) {
    && |schema[NESTED_CLASS]| == 2
    && forall t | 0 <= t < 64 ::
         if KnownTable(t) then
           && 1 <= |schema[t]| <= MAX_COLUMNS
           && (SortKeyColumn(t).Some? ==> SortKeyColumn(t).value < |schema[t]|)
         else schema[t] == []
  }

  function EcmaSchema(): Schema {
    seq(64, t requires 0 <= t < 64 => if KnownTable(t) then ColumnsOf(t) else [])
  }

  lemma ColumnCounts(t: TableId)
    ensures 1 <= |ColumnsOf(t)| <= MAX_COLUMNS
    ensures SortKeyColumn(t).Some? ==> SortKeyColumn(t).value < |ColumnsOf(t)|
  {}

  /** The standard's schema is one the layout proofs apply to. */
  lemma EcmaSchemaValid()
    ensures ValidSchema(EcmaSchema())
  {
    assert |ColumnsOf(NESTED_CLASS)| == 2;
    hide ColumnsOf, SortKeyColumn;
    forall t: int | 0 <= t < 64 && KnownTable(t)
      ensures 1 <= |EcmaSchema()[t]| <= MAX_COLUMNS
      ensures SortKeyColumn(t).Some? ==> SortKeyColumn(t).value < |EcmaSchema()[t]|
    {
      ColumnCounts(t);
    }
  }

  /** A table's key column is coded exactly as `SortKeyCoded` says, and a row id column otherwise. */
  lemma SortKeysMatchColumns(t: TableId)
    requires SortKeyColumn(t).Some? && SortKeyColumn(t).value < |ColumnsOf(t)|
    ensures match SortKeyCoded(t)
            case Some(kind) => ColumnsOf(t)[SortKeyColumn(t).value] == Coded(kind)
            case None => ColumnsOf(t)[SortKeyColumn(t).value].Rid?
  {}

  /** The list columns the owner lookups use hold row ids of the tables they claim. */
  lemma ListColumnsMatch()
    ensures ColumnsOf(TYPE_DEF)[4] == Rid(FIELD) && ColumnsOf(TYPE_DEF)[5] == Rid(METHOD_DEF)
    ensures ColumnsOf(METHOD_DEF)[5] == Rid(PARAM)
    ensures ColumnsOf(EVENT_MAP)[1] == Rid(EVENT) && ColumnsOf(PROPERTY_MAP)[1] == Rid(PROPERTY)
  {}
}
