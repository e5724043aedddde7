/**
 * The schema read off the standard by number (sections II.22 and II.24.2.6 of ECMA-335, and the
 * Portable PDB tables): what each row looks like, which table each tag means, which columns tables
 * are sorted by, and which pointer table redirects into which.
 */
module TableStandard {
  import opened Wrappers
  import opened Bytes
  import opened Tokens
  import opened TableSchema
  import opened TableCoded

  /** One letter a column: two or four bytes, a string, GUID or blob index, a row id, a coded index. */
  function RowShape(t: TableId): string {
    if t == 0x00 then "2SGGG"
    else if t == 0x01 then "CSS"
    else if t == 0x02 then "4SSCRR"
    else if t == 0x03 then "R"
    else if t == 0x04 then "2SB"
    else if t == 0x05 then "R"
    else if t == 0x06 then "422SBR"
    else if t == 0x07 then "R"
    else if t == 0x08 then "22S"
    else if t == 0x09 then "RC"
    else if t == 0x0A then "CSB"
    else if t == 0x0B then "2CB"
    else if t == 0x0C then "CCB"
    else if t == 0x0D then "CB"
    else if t == 0x0E then "2CB"
    else if t == 0x0F then "24R"
    else if t == 0x10 then "4R"
    else if t == 0x11 then "B"
    else if t == 0x12 then "RR"
    else if t == 0x13 then "R"
    else if t == 0x14 then "2SC"
    else if t == 0x15 then "RR"
    else if t == 0x16 then "R"
    else if t == 0x17 then "2SB"
    else if t == 0x18 then "2RC"
    else if t == 0x19 then "RCC"
    else if t == 0x1A then "S"
    else if t == 0x1B then "B"
    else if t == 0x1C then "2CSR"
    else if t == 0x1D then "4R"
    else if t == 0x1E then "44"
    else if t == 0x1F then "4"
    else if t == 0x20 then "422224BSS"
    else if t == 0x21 then "4"
    else if t == 0x22 then "444"
    else if t == 0x23 then "22224BSSB"
    else if t == 0x24 then "4R"
    else if t == 0x25 then "444R"
    else if t == 0x26 then "4SB"
    else if t == 0x27 then "44SSC"
    else if t == 0x28 then "44SC"
    else if t == 0x29 then "RR"
    else if t == 0x2A then "22CS"
    else if t == 0x2B then "CB"
    else if t == 0x2C then "RC"
    else if t == 0x30 then "BGBG"
    else if t == 0x31 then "RB"
    else if t == 0x32 then "RRRR44"
    else if t == 0x33 then "22S"
    else if t == 0x34 then "SB"
    else if t == 0x35 then "RB"
    else if t == 0x36 then "RR"
    else "CGB"
  }

  function Letter(kind: ColumnKind): char {
    match kind
    case U16 => '2'
    case U32 => '4'
    case StringIndex => 'S'
    case GuidIndex => 'G'
    case BlobIndex => 'B'
    case Rid(_) => 'R'
    case Coded(_) => 'C'
  }

  lemma {:induction false} ShapesListed(t: TableId, c: nat)
    ensures |ColumnsOf(t)| == |RowShape(t)|
    ensures c < |ColumnsOf(t)| ==> Letter(ColumnsOf(t)[c]) == RowShape(t)[c]
  {}

  /** The table each tag means, by number; -1 is a tag without one. */
  function Tags(k: CodedIndex): seq<int> {
    match k
    case TypeDefOrRef => [0x02, 0x01, 0x1B]
    case HasConstant => [0x04, 0x08, 0x17]
    case HasCustomAttribute => 
      [0x06, 0x04, 0x01, 0x02, 0x08, 0x09, 0x0A, 0x00, 0x0E, 0x17, 0x14, 0x11, 0x1A, 0x1B, 0x20, 0x23, 0x26, 0x27, 0x28, 0x2A,
       0x2C, 0x2B]
    case HasFieldMarshal => [0x04, 0x08]
    case HasDeclSecurity => [0x02, 0x06, 0x20]
    case MemberRefParent => [0x02, 0x01, 0x1A, 0x06, 0x1B]
    case HasSemantics => [0x14, 0x17]
    case MethodDefOrRef => [0x06, 0x0A]
    case MemberForwarded => [0x04, 0x06]
    case Implementation => [0x26, 0x23, 0x27]
    case CustomAttributeType => [-1, -1, 0x06, 0x0A, -1]
    case ResolutionScope => [0x00, 0x1A, 0x23, 0x01]
    case TypeOrMethodDef => [0x02, 0x06]
    case HasCustomDebugInformation => 
      [0x06, 0x04, 0x01, 0x02, 0x08, 0x09, 0x0A, 0x00, 0x0E, 0x17, 0x14, 0x11, 0x1A, 0x1B, 0x20, 0x23, 0x26, 0x27, 0x28, 0x2A,
       0x2C, 0x2B, 0x30, 0x32, 0x33, 0x34, 0x35]
  }

  lemma {:induction false} TagsListed(k: CodedIndex, tag: nat)
    ensures |TablesOf(k)| == |Tags(k)|
    ensures tag < |Tags(k)| ==> TablesOf(k)[tag] == if Tags(k)[tag] < 0 then None else Some(Tags(k)[tag])
  {
    hide Tags, TablesOf;
    if k == HasCustomAttribute || k == HasCustomDebugInformation {
      LongTags(k, tag);
    } else {
      ShortTags(k, tag);
    }
  }

  lemma LongTags(k: CodedIndex, tag: nat)
    requires k == HasCustomAttribute || k == HasCustomDebugInformation
    ensures |TablesOf(k)| == |Tags(k)|
    ensures tag < |Tags(k)| ==> TablesOf(k)[tag] == Some(Tags(k)[tag])
  {
    hide Tags, TablesOf;
    LongestTags(tag);
    LongListFront();
    TagsFront();
  }

  lemma TagsFront()
    ensures Tags(HasCustomAttribute) == Tags(HasCustomDebugInformation)[..22]
  {}

  lemma LongestTags(tag: nat)
    ensures |TablesOf(HasCustomDebugInformation)| == |Tags(HasCustomDebugInformation)| == 27
    ensures tag < 27 ==> TablesOf(HasCustomDebugInformation)[tag] == Some(Tags(HasCustomDebugInformation)[tag])
  {}

  lemma ShortTags(k: CodedIndex, tag: nat)
    requires k != HasCustomAttribute && k != HasCustomDebugInformation
    ensures |TablesOf(k)| == |Tags(k)|
    ensures tag < |Tags(k)| ==> TablesOf(k)[tag] == if Tags(k)[tag] < 0 then None else Some(Tags(k)[tag])
  {}

  /** Tags take as few bits as their list allows. */
  lemma TagBitsMinimal(k: CodedIndex)
    ensures TagSize(k) < 2 * |Tags(k)| <= 2 * TagSize(k)
  {}

  /** A coded value decodes exactly when its tag means a table, and then to that table and the row id above the tag. */
  lemma {:induction false} DecodeListed(k: CodedIndex, value: u32)
    ensures var tag, rid := value % TagSize(k), value / TagSize(k);
            Decode(k, value) ==
            if tag < |Tags(k)| && Tags(k)[tag] >= 0 then Ok(0x100_0000 * Tags(k)[tag] + rid % 0x100_0000) else Err(Malformed)
  {
    hide Tags, TablesOf, TagSize;
    TagsListed(k, value % TagSize(k));
  }

  /** The sorted tables and the column each is sorted by. */
  function SortKeys(): set<(nat, nat)> {
    {(0x09, 0), (0x0B, 1), (0x0C, 0), (0x0D, 0), (0x0E, 1), (0x0F, 2), (0x10, 1), (0x12, 0),
     (0x15, 0), (0x18, 2), (0x19, 0), (0x1C, 1), (0x1D, 1), (0x29, 0), (0x2A, 2), (0x2C, 0),
     (0x32, 0), (0x36, 0), (0x37, 0)}
  }

  lemma {:induction false} SortKeysListed(t: TableId, c: nat)
    ensures SortKeyColumn(t) == Some(c) <==> (t, c) in SortKeys()
  {}

  /** Each pointer table with the table it redirects into. */
  function Redirections(): set<(nat, nat)> {
    {(0x03, 0x04), (0x05, 0x06), (0x07, 0x08), (0x13, 0x14), (0x16, 0x17)}
  }

  lemma {:induction false} RedirectionsListed(ptr: TableId, target: TableId)
    ensures PtrSource(target) == Some(ptr) <==> (ptr, target) in Redirections()
  {}
}
