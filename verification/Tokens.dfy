/** Metadata tokens and table ids (src/token.rs). */
module Tokens {
  import opened Wrappers
  import opened Bytes

  /** The 45 tables of ECMA-335, then the eight of Portable PDB after a gap of three ids. */
  predicate KnownTable(t: int) {
    0x00 <= t <= 0x2C || 0x30 <= t <= 0x37
  }

  type TableId = t: int | 0x00 <= t <= 0x2C || 0x30 <= t <= 0x37

  const MODULE: TableId := 0x00
  const TYPE_REF: TableId := 0x01
  const TYPE_DEF: TableId := 0x02
  const FIELD_PTR: TableId := 0x03
  const FIELD: TableId := 0x04
  const METHOD_PTR: TableId := 0x05
  const METHOD_DEF: TableId := 0x06
  const PARAM_PTR: TableId := 0x07
  const PARAM: TableId := 0x08
  const INTERFACE_IMPL: TableId := 0x09
  const MEMBER_REF: TableId := 0x0A
  const CONSTANT: TableId := 0x0B
  const CUSTOM_ATTRIBUTE: TableId := 0x0C
  const FIELD_MARSHAL: TableId := 0x0D
  const DECL_SECURITY: TableId := 0x0E
  const CLASS_LAYOUT: TableId := 0x0F
  const FIELD_LAYOUT: TableId := 0x10
  const STAND_ALONE_SIG: TableId := 0x11
  const EVENT_MAP: TableId := 0x12
  const EVENT_PTR: TableId := 0x13
  const EVENT: TableId := 0x14
  const PROPERTY_MAP: TableId := 0x15
  const PROPERTY_PTR: TableId := 0x16
  const PROPERTY: TableId := 0x17
  const METHOD_SEMANTICS: TableId := 0x18
  const METHOD_IMPL: TableId := 0x19
  const MODULE_REF: TableId := 0x1A
  const TYPE_SPEC: TableId := 0x1B
  const IMPL_MAP: TableId := 0x1C
  const FIELD_RVA: TableId := 0x1D
  const ENC_LOG: TableId := 0x1E
  const ENC_MAP: TableId := 0x1F
  const ASSEMBLY: TableId := 0x20
  const ASSEMBLY_PROCESSOR: TableId := 0x21
  const ASSEMBLY_OS: TableId := 0x22
  const ASSEMBLY_REF: TableId := 0x23
  const ASSEMBLY_REF_PROCESSOR: TableId := 0x24
  const ASSEMBLY_REF_OS: TableId := 0x25
  const FILE: TableId := 0x26
  const EXPORTED_TYPE: TableId := 0x27
  const MANIFEST_RESOURCE: TableId := 0x28
  const NESTED_CLASS: TableId := 0x29
  const GENERIC_PARAM: TableId := 0x2A
  const METHOD_SPEC: TableId := 0x2B
  const GENERIC_PARAM_CONSTRAINT: TableId := 0x2C
  const DOCUMENT: TableId := 0x30
  const METHOD_DEBUG_INFORMATION: TableId := 0x31
  const LOCAL_SCOPE: TableId := 0x32
  const LOCAL_VARIABLE: TableId := 0x33
  const LOCAL_CONSTANT: TableId := 0x34
  const IMPORT_SCOPE: TableId := 0x35
  const STATE_MACHINE_METHOD: TableId := 0x36
  const CUSTOM_DEBUG_INFORMATION: TableId := 0x37

  /** A table id times 2^24, plus a row id below 2^24. */
  type Token = u32

  const RID_LIMIT: u32 := 0x100_0000

  /** Only the low 24 bits of the row id are kept. */
  function NewToken(table: TableId, rid: u32): Token {
    0x100_0000 * (table as int) + rid % 0x100_0000
  }

  function TableOf(t: Token): Option<TableId> {
    var b := t / 0x100_0000;
    if KnownTable(b) then Some(b) else None
  }

  function RidOf(t: Token): u32 {
    t % 0x100_0000
  }

  /** A token gives back its table always, and its row id exactly when that fits in 24 bits. */
  lemma TokenRoundTrip(table: TableId, rid: u32)
    ensures TableOf(NewToken(table, rid)) == Some(table)
    ensures RidOf(NewToken(table, rid)) == rid <==> rid < RID_LIMIT
  {}

  /** A token with a known table is rebuilt from its two parts. */
  lemma TokenRebuild(t: Token)
    requires TableOf(t).Some?
    ensures NewToken(TableOf(t).value, RidOf(t)) == t
  {}

  /** The pointer table of a table whose rows may be reordered; five tables have one. */
  function PtrSource(t: TableId): Option<TableId> {
    if t == FIELD then Some(FIELD_PTR)
    else if t == METHOD_DEF then Some(METHOD_PTR)
    else if t == PARAM then Some(PARAM_PTR)
    else if t == EVENT then Some(EVENT_PTR)
    else if t == PROPERTY then Some(PROPERTY_PTR)
    else None
  }
}
