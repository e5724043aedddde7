# Verification of the cildec decoder

`cildec` decodes ECMA-335 (6th edition) metadata and CIL from untrusted bytes. This project models
its decoding cores in Dafny and proves what they promise. Run `dafny verify dfyconfig.toml`.

Five parts, all resting on the bounds-checked cursor (`Readers.dfy`), little-endian fields
(`Bytes.dfy`), compressed integers (`Compressed.dfy`) and metadata tokens (`Tokens.dfy`):

- **Signatures** (section II.23.2). `SignatureAst.dfy` holds the trees, their encoding and the measures
  the limits refer to; `SignatureGrammar.dfy` says what parsing computes, as functions from the unread
  bytes to a value and the bytes after it; `SignatureParser.dfy` is the recursive-descent parser with
  its cursor, depth counter and pinned flag, each method proved to compute its grammar function. The
  main results are that the parser inverts the encoder exactly when depth, modifier runs and array
  ranks are within bounds (`SignatureRoundTrip.dfy`, `SignatureEntry.dfy`), that whatever it accepts is
  canonical and paid for byte by byte (`SignatureSound.dfy`), that it reads no byte past what it
  consumes (`SignatureStable.dfy`), and what the pinned flag refuses (`SignaturePinned.dfy`).
  `SignatureSpelling.dfy` says of a tree, without the parser and by literal bytes, which byte strings
  spell it, numbers in any width included; `SignatureExact.dfy` proves that each entry point accepts
  exactly the spellings of canonical trees within the limits.
- **CIL** (Partition III section 2, Partition VI Annex C). `IlDecode.dfy` decodes and assembles one
  instruction; `IlOpcodes.dfy` lists the opcode table by number and proves what abbreviated encodings
  stand for; `IlStream.dfy` proves that disassembling and assembling undo each other over whole
  methods and that instruction spans tile the code; `IlFold.dfy` proves the folding state machine equal
  to grouping the raw stream into prefix runs and targets, each run judged as an unordered set.
- **Method data sections and exception handlers** (sections II.25.4.5 and II.25.4.6).
  `BodySections.dfy` proves the section chain with its two size dialects against a writer;
  `BodyHandlers.dfy` proves handler validation exact and that it yields a laminar family.
- **Tables** (sections II.22 and II.24.2.6). `TableSchema.dfy` and `TableCoded.dfy` hold columns and
  coded indexes, `TableStandard.dfy` checks them against the standard's numbers; `TableLayouts.dfy` the
  layout computed under hostile row counts; `TableSorted.dfy` the verification of sort order;
  `TableRoundTrip.dfy` writes any contents and reads them back, and `TableRefusals.dfy` says which
  written streams are refused; `TableLookup.dfy`, `ListColumns.dfy`, `TableRows.dfy` and
  `NestedWalk.dfy` prove the lookups against linear specifications.
- **Heaps** (section II.24.2.4). `Heaps.dfy`: walking a written heap gives what was written, and a blob
  is read exactly when its length and its bytes are there.

Conventions. A byte slice is a `seq<byte>`; 32-bit values are integers with their bound in the type
and wrap-around, truncation and saturation written out. `usize` is taken as 64 bits and inputs as
shorter than 2^32 bytes, so the original's `as u32` casts and `count + 1` are exact. Floats are bit
patterns. Errors keep their kind; strict and permissive parsing are a flag. A parser is specified on
the unread bytes, an iterator by the stream it still has to yield, so that after a fault it yields
nothing more. A table schema is a parameter: the layout and lookup results hold for any schema of one
to nine columns a table, and `TableSchema.EcmaSchemaValid` says the standard's own is one.

Where code and documentation disagree the code is followed:

- `validate_handlers` documents that a filter ends where its handler begins; the code only asks that
  it starts before it (src/body.rs:267-268 and 285-292).
- `small_row_limit` is documented as the largest row id the 2-byte form can hold; it is one more
  (src/tables/coded.rs:101-106).
- `array_shape` rejects a rank of more than the remaining bytes plus one, so a canonical array of high
  rank without sizes and bounds is refused at the end of a blob (`SignatureEntry.HighRankRejected`).
  So a signature that spelled its zero counts at length can be accepted while its canonical rewrite is
  not (`SignatureEntry.ReparseFails`); `SignatureEntry.ReparseMethodSig` states exactly when it is.
- A local that is pinned by its own flag is read with the parser's pinned flag clear, so a pinned type
  may stand inside it (`SignaturePinned.PinnedInsidePinnedLocal`); `SignaturePinned.LocalPinnedExact`
  states exactly when none does.
- A coded key wider than 24 bits of row id decodes to a token whose lookup does not find it, and every
  kind has such keys (`TableLookup.WideKeyMissed`, `TableLookup.WideTwin`).
- A list column cannot hold one past the end of a target with 0xFFFF rows, and can for every other
  count (`TableCoded.OnePastTheEnd`).

## Model

| member | source | states |
|---|---|---|
| Bytes.Put64Le64 | src/reader.rs:92-121 | Writing the little-endian value read from eight bytes gives those bytes back, so integer and float fields lose nothing |
| Readers.Reader.Take | src/reader.rs:66-71 | Returns exactly the next n bytes and moves past them, or fails as truncated and leaves the cursor alone |
| Readers.Reader.AlignTo | src/reader.rs:55-60 | Moves to the next multiple of the alignment relative to the origin, by less than one alignment, or fails and stays |
| Compressed.ReadEncodeU32 | src/compressed.rs:15-32 | Reading the shortest encoding of any value up to 0x1FFFFFFF gives it back and uses exactly its bytes, whatever follows |
| Compressed.ReadEncodeI32 | src/compressed.rs:37-62 | The same for every signed value in [-2^28, 2^28), with the sign rotated into bit 0 at each width |
| Compressed.EncodeU32Shortest | src/compressed.rs:69-86 | No spelling the reader accepts is shorter than the one the writer chooses |
| Compressed.ReadU32Exact | src/compressed.rs:15-32 | A read gives a value and a length if and only if the bytes start with an encoding of that value, in any width that holds it, and of that length |
| Compressed.ReadI32Exact | src/compressed.rs:37-62 | The same for signed values |
| Compressed.ReadU32Refuses | src/compressed.rs:15-32 | What is not accepted is truncated if and only if some bytes would complete it, and malformed otherwise |
| Compressed.WriteU32 | src/compressed.rs:69-86 | Leaves the encoding at the front of the buffer and the rest of it alone; writes nothing for a value that is too large |
| Tokens.TokenRoundTrip | src/token.rs:252-269 | A token gives back its table always and its row id exactly when that fits in 24 bits |
| SignatureEntry.MethodSigRoundTrip | src/signature.rs:385-389 | Parsing the encoding of a canonical method signature gives it back, SENTINEL split included, and leaves what follows, if and only if depth (two for each function pointer), modifier runs and array ranks are within bounds; otherwise, ranks being fine, the error is the recursion limit |
| SignatureEntry.FieldSigRoundTrip | src/signature.rs:412-418 | The same equivalence for field signatures |
| SignatureEntry.PropertySigRoundTrip | src/signature.rs:487-501 | The same equivalence for property signatures, HASTHIS bit included |
| SignatureEntry.LocalVarSigRoundTrip | src/signature.rs:453-462 | The same equivalence for local signatures, however each local's modifiers are divided around its PINNED: the two runs come back as one list, and are limited separately |
| SignatureEntry.MethodSpecRoundTrip | src/signature.rs:523-532 | The same equivalence for method instantiations |
| SignatureEntry.TypeSpecRoundTrip | src/signature.rs:553-557 | The same equivalence for type specs |
| SignatureRoundTrip.RtType | src/signature.rs:675-759 | At any depth and beneath a PINNED or not, a canonical type round trips if and only if it fits under the limit |
| SignatureRoundTrip.RtSig | src/signature.rs:822-881 | The same for a method signature nested anywhere in a type |
| SignatureRoundTrip.RtMods | src/signature.rs:645-661 | A run of modifiers round trips up to the limit and is refused as recursion beyond it |
| SignatureRoundTrip.RtShape | src/signature.rs:761-777 | An array shape round trips exactly when its rank is at most one more than the bytes after it |
| SignatureEntry.ModestRanksPass | src/signature.rs:761-765 | A rank of at most sizes plus lower bounds plus three passes the guard wherever the array stands |
| SignatureEntry.HighRankRejected | src/signature.rs:761-765 | A canonical five-dimensional array without sizes at the end of a blob is refused |
| SignatureEntry.ReparseMethodSig | src/signature.rs:385-389 | Writing a parsed method signature canonically and parsing that, at the same limit, gives the same tree and leaves nothing over if and only if its array ranks pass the guard with nothing after it |
| SignatureEntry.ReparseTypeSpec | src/signature.rs:553-557 | The same equivalence for type specs |
| SignatureEntry.ReparseFieldSig | src/signature.rs:412-418 | The same equivalence for field signatures |
| SignatureEntry.ReparseFails | src/signature.rs:761-765 | The condition can fail: ten bytes with a rank of five and a zero count spelled in four bytes are accepted, and their seven-byte canonical rewrite is refused |
| SignatureSound.MethodSigSound | src/signature.rs:822-881 | On any bytes, an accepted method signature is canonical (no Sentinel or Internal, no Pinned beneath Pinned, modifiers never doubled), within the limits, and has no more nodes than bytes consumed |
| SignatureSound.TypeSpecSound | src/signature.rs:675-759 | The same for any accepted type |
| SignatureSound.FieldSigSound | src/signature.rs:412-418 | The same for field signatures, whose type is never itself a modified one |
| SignatureSound.PropertySigSound | src/signature.rs:487-501 | The same for property signatures |
| SignatureSound.LocalSigSound | src/signature.rs:453-462 | The same for local signatures: no local's type is Pinned, and nodes and modifiers are paid for in bytes |
| SignatureSound.MethodSpecSound | src/signature.rs:523-532 | The same for method instantiations |
| SignaturePinned.PinType | src/signature.rs:746-754 | With the pinned flag set, what parses without it parses to the same tree and the same rest when no Pinned occurs in the tree, and is refused as malformed when one does |
| SignaturePinned.LocalPinnedExact | src/signature.rs:791-820 | The type of any accepted local (a bare TYPEDBYREF apart) has no Pinned inside exactly when its own bytes also parse with the pinned flag set |
| SignaturePinned.PinnedInsidePinnedLocal | src/signature.rs:791-820 | The condition can fail: a pinned local whose type points to a pinned type is accepted |
| SignatureExact.TypeExact | src/signature.rs:675-759 | On any bytes, at any depth and pinned state, a type parses to a tree and a rest if and only if the bytes before the rest spell the tree and it is canonical and within the limits |
| SignatureExact.TypeComplete | src/signature.rs:675-759 | Any spelling of a canonical type parses to it, or ends at the recursion limit when the type does not fit |
| SignatureExact.MethodSigExact | src/signature.rs:385-389 | A method signature is accepted, with what result and rest, if and only if the bytes spell it and it is canonical and within the limits; a spelled one beyond them is a recursion error |
| SignatureExact.FieldSigExact | src/signature.rs:412-418 | The same for fields, whose first byte has 6 in its low four bits |
| SignatureExact.LocalVarSigExact | src/signature.rs:453-462 | The same for locals, first byte 7 |
| SignatureExact.PropertySigExact | src/signature.rs:487-501 | The same for properties, first byte 8 and bit 5 for HASTHIS |
| SignatureExact.MethodSpecExact | src/signature.rs:523-532 | The same for method instantiations, first byte 10 |
| SignatureExact.TypeSpecExact | src/signature.rs:553-557 | The same for type specs, and a spelled one beyond the limits is a recursion error |
| SignatureExact.ConventionRefused | src/signature.rs:623-630 | A blob with another convention in its first byte is malformed |
| SignatureExact.FirstByteRefused | src/signature.rs:691-759 | A type that starts with a byte no type starts with is malformed, or unsupported for INTERNAL; a PINNED beneath a PINNED is malformed |
| SignatureExact.CountRefused | src/signature.rs:614-621 | A count above the bytes left is malformed |
| SignatureExact.RankRefused | src/signature.rs:761-765 | A rank above the bytes left plus one is malformed |
| SignatureExact.SecondSentinelRefused | src/signature.rs:852-859 | A second SENTINEL is malformed |
| SignatureExact.TokenRefused | src/signature.rs:632-643 | A token with tag 3 is malformed |
| SignatureExact.InstantiationRefused | src/signature.rs:730-736 | An instantiation of anything but a value type or a class is malformed |
| SignatureExact.NothingLeft | src/signature.rs:779-800 | Where a parameter or a local is due and no byte is left, the blob is truncated |
| SignatureStable.EntryPointsStable | src/signature.rs:614-881 | Bytes appended to an accepted blob change neither the tree nor the bytes consumed, for all six entry points |
| SignatureStable.NoStrictPrefix | src/signature.rs:614-881 | No strict prefix of the bytes an accepted signature consumed is accepted, for all six entry points |
| SignatureParser.Parser.BoundedCount | src/signature.rs:614-621 | Reads a count and refuses one that exceeds the bytes left |
| SignatureParser.Parser.CustomMods | src/signature.rs:645-661 | The loop reads exactly the maximal run of modifiers the grammar function gives, with its limit |
| SignatureParser.Parser.ReadType | src/signature.rs:675-680 | Computes the grammar's type, moves the cursor to what is left of it, restores the pinned flag always and the depth unless an `enter` failed |
| SignatureParser.Parser.TypeBody | src/signature.rs:691-759 | The same for every element type, including the flag set and cleared around PINNED |
| SignatureParser.Parser.Shape | src/signature.rs:761-777 | The two loops read the sizes and bounds the grammar gives, after the rank guard |
| SignatureParser.Parser.SplitList | src/signature.rs:852-869 | The loop divides the parameters at the first SENTINEL as the grammar does, and refuses a second one |
| SignatureParser.Parser.ReadMethodSig | src/signature.rs:822-881 | Computes the grammar's method signature and restores depth and flag the same way |
| SignatureParser.Parser.ReadLocalVar | src/signature.rs:791-820 | Computes the grammar's local: bare TYPEDBYREF costs no depth, both modifier runs are merged |
| SignatureParser.ParseMethodSig | src/signature.rs:385-389 | The entry point returns what the round trips and soundness above are about |
| SignatureParser.ParseFieldSig | src/signature.rs:412-418 | As above, for fields |
| SignatureParser.ParseLocalVarSig | src/signature.rs:453-462 | As above, for locals |
| SignatureParser.ParsePropertySig | src/signature.rs:487-501 | As above, for properties |
| SignatureParser.ParseMethodSpec | src/signature.rs:523-532 | As above, for instantiations |
| SignatureParser.ParseTypeSpec | src/signature.rs:553-557 | As above, for type specs |
| IlDecode.EncodeDecode | src/il/mod.rs:494-556 | Re-encoding any decoded instruction, targets turned back into wrapped deltas, gives its bytes back; it lies inside the code and advances |
| IlDecode.DecodeEncode | src/il/mod.rs:494-556 | Decoding the bytes of any well-formed instruction, anywhere in a method, gives that instruction |
| IlDecode.DecodeRefused | src/il/mod.rs:494-556 | What does not decode inside the code is truncated if and only if some more bytes would complete it, and an unknown opcode otherwise; past its end it is out of range |
| IlDecode.PutInterpret | src/il/mod.rs:503-553 | Writing a decoded fixed-size operand gives its bytes back, for every operand kind |
| IlDecode.InterpretPut | src/il/mod.rs:503-553 | Reading a written operand gives the operand back, for every operand kind |
| IlOpcodes.KindListed | src/il/table.rs:470-2660 | Exactly the listed opcodes carry each kind of operand; the others carry none |
| IlOpcodes.KnownListed | src/il/table.rs:2662-2892 | Exactly the encodings outside the listed gaps exist |
| IlOpcodes.OpcodeCount | src/il/table.rs:2662-2892 | There are 219 of them |
| IlOpcodes.PrefixesListed | src/il/table.rs:470-2660 | Six of them are prefixes |
| IlOpcodes.LonghandKeepsOperand | src/il/table.rs:2894-2942 | Whatever operand an abbreviated encoding carries, its canonical opcode can carry at the same place, and decodes to it |
| IlOpcodes.ConstantMacro | src/il/table.rs:2963-2978 | The ldc.i4 macros for -1 to 8 carry the constant that ldc.i4 spells out |
| IlOpcodes.VariableMacro | src/il/table.rs:2944-2961 | The twelve ldarg, ldloc and stloc macros carry the index that the one-byte form spells out |
| IlOpcodes.ShortVariable | src/il/table.rs:2894-2942 | The six one-byte variable forms carry the index that the two-byte forms spell out |
| IlOpcodes.ShortConstant | src/il/mod.rs:509-516 | The one-byte constant form carries the sign-extended value that ldc.i4 spells out |
| IlOpcodes.ShortBranchForm | src/il/mod.rs:527-536 | A short branch leads to its end plus its signed byte, around the 32-bit range |
| IlOpcodes.LongBranchForm | src/il/mod.rs:527-536 | A long branch leads to its end plus its signed word, around the 32-bit range |
| IlStream.RawStreamTiles | src/il/mod.rs:579-605 | On any bytes the instructions are contiguous, non-empty and inside the code from offset 0 up to the first fault; without one the sizes sum to the code length |
| IlStream.DisassemblyLossless | src/il/mod.rs:579-605 | Assembling what a method disassembles to gives the bytes up to the first fault, and all of them when there is none |
| IlStream.AssemblyFaithful | src/il/mod.rs:579-605 | Disassembling any contiguous list of well-formed instructions gives exactly that list and no fault |
| IlStream.DecodeAt | src/il/mod.rs:494-556 | The cursor-driven decoder, with its loop over switch deltas, computes the decoding the round trips are about |
| IlStream.InstructionIter.Next | src/il/mod.rs:582-605 | Each call yields the next item of the stream; after a fault or the end it yields nothing, for ever |
| IlStream.InstructionIter.Offsets | src/body.rs:329-338 | The offsets of exactly the instructions before the first fault, in order |
| IlStream.IsInstructionBoundary | src/body.rs:340-359 | The scan that gives up as soon as it has passed the offset answers yes if and only if the offset is in the list of all instruction offsets before the first fault |
| IlFold.PrefixesAccepted | src/il/mod.rs:672-737 | A sequence of prefixes is accepted exactly when their kinds are distinct and no `no.` mask is empty, and then gives the record of what occurs |
| IlFold.PrefixOrderIrrelevant | src/il/mod.rs:672-737 | Any permutation of a prefix sequence gets the same verdict and the same record |
| IlFold.CheckMeansTargetLegal | src/il/mod.rs:739-766 | The check of a record against a target accepts exactly when the target is in the listed opcodes of every prefix of the run |
| IlFold.TargetsListed | src/il/mod.rs:768-869 | The opcodes that volatile., unaligned. and no. may precede are exactly the listed ones |
| IlFold.SinglePrefix | src/il/mod.rs:625-669 | A single prefix folds onto the next instruction if and only if that is one of its listed targets; another one, or none, is an invalid target, and a raw fault is passed on |
| IlFold.RepeatedPrefix | src/il/mod.rs:672-737 | A prefix read twice in a row, or a no. that suppresses nothing, is malformed whatever follows |
| IlFold.MaskBits | src/il/mod.rs:421-435 | Bit 0 of a no. mask suppresses the type check, bit 1 the range check, bit 2 the null check, and a mask without them nothing |
| IlFold.PrefixOperands | src/il/mod.rs:675-727 | The token or byte a prefix is recorded with is the one that stands behind its opcode in the code |
| IlFold.FoldedIter.Next | src/il/mod.rs:625-669 | The folding state machine yields, call by call, the raw stream grouped into maximal prefix runs with their targets, up to the first fault |
| IlFold.FoldingClean | src/il/mod.rs:622-670 | Folding ends without an error if and only if raw decoding does and every run is legal and ends on a target it allows |
| IlFold.FoldedStream | src/il/mod.rs:467-491 | Over any code, folded spans, prefixes included, tile the method |
| BodyHandlers.ValidateHandlers | src/body.rs:270-312 | The nested loops give the first verdict in clause and pair order |
| BodyHandlers.ValidationExact | src/body.rs:270-312 | Accepts if and only if, in unbounded arithmetic, ranges are non-empty and inside the code, each handler is disjoint from its try, filters start before their handlers, and tries and handlers are pairwise nested or disjoint; saturation never matters |
| BodyHandlers.RefusalExact | src/body.rs:270-312 | A refusal is about the first clause that is not legal or clashes with another, and says out of range exactly when that clause leaves the code |
| BodyHandlers.CoveringTriesNest | src/body.rs:362-371 | After acceptance, of two try blocks around one offset one contains the other |
| BodyHandlers.InnermostTry | src/body.rs:362-371 | After acceptance there is an innermost try block around any covered offset, inside all the others |
| BodyHandlers.NotCompared | src/body.rs:270-312 | A handler that straddles another clause's try is accepted |
| BodySections.ChainRoundTrip | src/body.rs:373-470 | Any chain of small, fat and unknown sections, whatever their free kind bits, parses to its clauses and raw sections in order and ends where it was written to end: permissively whether or not the sizes count the header, strictly when they do; one that promises a section more than there is gives what there is, and is truncated to strict parsing |
| BodySections.StrictRejectsHeaderless | src/body.rs:406-414 | Strict parsing refuses every chain in which some non-empty exception section's size leaves out its header |
| BodySections.ConformingNotReinterpreted | src/body.rs:395-421 | A size that counts the header is never read the other way |
| BodySections.SizeRecovered | src/body.rs:395-436 | Both spellings of a size give the body length that was written |
| BodySections.ReadPutClause | src/body.rs:472-495 | Small and fat clauses round trip, whatever fills the field a kind does not use |
| BodySections.ReadClauseExact | src/body.rs:472-495 | A clause is accepted if and only if its three low flag bits are 0 (catch), 1 (filter), 2 (finally) or 4 (fault), is malformed otherwise, and writing what was read gives its bytes back |
| BodySections.HeaderMissing | src/body.rs:383-391 | Where the data ends in the alignment the section is out of range, and in the header truncated |
| BodySections.CutSection | src/body.rs:395-458 | A section the data cuts short gives its whole clauses or first bytes permissively, and is refused strictly, as truncated when its size is honest |
| BodySections.StrictRefinesPermissive | src/body.rs:373-470 | On any bytes, what strict parsing accepts permissive parsing reads the same way |
| BodySections.ParseSections | src/body.rs:373-470 | The cursor loop computes the chain, consumes at least four bytes a section and leaves the cursor at its end |
| BodySections.ReadSection | src/body.rs:439-458 | The clause loop gives the clauses of the section, or keeps it raw |
| Heaps.HeapRoundTrip | src/heaps.rs:252-261 | Walking a heap of length-prefixed blobs gives exactly those blobs at the offsets where they were written |
| Heaps.BlobsReadBack | src/heaps.rs:198-223 | On any heap every index the walk yields reads back the same bytes, and indices strictly increase |
| Heaps.BlobExact | src/heaps.rs:215-223 | A blob is read, with its size, if and only if its length in any encoding and then all its bytes are there |
| Heaps.BlobRefused | src/heaps.rs:215-223 | A length beyond the bytes left is out of range, and so is an index past the end |
| Heaps.BlobUnreadable | src/heaps.rs:215-223 | A length that is itself refused passes its error on, and at the end of the heap that is truncated |
| Heaps.BlobIter.Next | src/heaps.rs:252-261 | Each call yields the next entry, and nothing once an entry cannot be decoded |
| Heaps.StringsRoundTrip | src/heaps.rs:178-188 | Walking a written string heap gives the strings at their offsets |
| Heaps.StringsIter.Next | src/heaps.rs:178-188 | The scan for the NUL yields the next entry, an unterminated last one running to the end |
| Heaps.SplitExact | src/heaps.rs:393-402 | Splitting a user string keeps whole code units and the flag, and drops one byte exactly for an even non-zero length, which it reports |
| Heaps.UserStringsRoundTrip | src/heaps.rs:411-423 | Walking a written user string heap gives the strings that were written, flags included, each under the token of the offset where it was written |
| Heaps.TokenLeadsBack | src/token.rs:440-457 | Such a token gives back its offset under the 0x70 table byte if and only if the offset is below 2^24 |
| Heaps.TokenBits | src/heaps.rs:411-423 | The token of an offset is the offset with the three bits of 0x70 set |
| TableSchema.EcmaSchemaValid | src/tables/rows.rs:110-714 | The standard's schema has one to nine columns a table and a key column inside each keyed one |
| TableSchema.SortKeysMatchColumns | src/tables/lookup.rs:30-68 | Each sort key column is coded by exactly the kind the lookup encodes with, or is a row id column |
| TableStandard.ShapesListed | src/tables/rows.rs:110-714 | Every table has the listed columns, in number, order and kind |
| TableStandard.TagsListed | src/tables/coded.rs:51-92 | Every tag of every coded index means the listed table |
| TableStandard.TagBitsMinimal | src/tables/coded.rs:51-92 | No coded index spends a tag bit it does not need |
| TableStandard.DecodeListed | src/tables/coded.rs:117-126 | A coded value decodes if and only if its tag means a table, to that table and the low 24 bits of the rest, and is malformed otherwise |
| TableStandard.SortKeysListed | src/tables/lookup.rs:30-53 | The tables with a sort key, and its column, are the listed ones |
| TableStandard.RedirectionsListed | src/token.rs:218-227 | Five pointer tables redirect into the listed tables |
| TableCoded.DecodeEncode | src/tables/coded.rs:117-133 | A kind encodes exactly the tokens whose table it lists, and decoding gives the token back |
| TableCoded.EncodeDecode | src/tables/coded.rs:117-133 | Re-encoding a decoded value gives it back if and only if its row id fits in 24 bits |
| TableCoded.TagListFits | src/tables/coded.rs:51-92 | Every tag list fits its tag bits and no table has two tags |
| TableCoded.RidWidthAdequate | src/tables/mod.rs:605-613 | The computed width loses no simple reference to a row of the target or of its pointer table |
| TableCoded.CodedWidthAdequate | src/tables/coded.rs:104-111 | The computed width loses no coded reference to a row its table has |
| TableCoded.OnePastTheEnd | src/tables/mod.rs:605-613 | A row id column can hold one past the end of its target, of fewer than 2^32 - 1 rows, if and only if the target does not have exactly 0xFFFF rows |
| TableLayouts.ReadLayout | src/tables/mod.rs:178-296 | The header reads and the two table loops compute the layout the results below are about |
| TableLayouts.ReadHeader | src/tables/mod.rs:185-192 | The field reads give the heap sizes and both bit vectors from their places and use 24 bytes, or fail as truncated |
| TableLayouts.ReadCounts | src/tables/mod.rs:206-227 | The loop over the valid bits reads one count a set bit and refuses unknown tables as the specification does |
| TableLayouts.ComputeLayouts | src/tables/mod.rs:235-282 | The loop over tables, with its cursor and its clamping, computes the layouts in id order |
| TableLayouts.ParsedLayoutSafe | src/tables/mod.rs:178-299 | Whatever the declared counts, a successful parse lays the tables contiguously in id order inside the stream, with columns that tile each row |
| TableLayouts.RawColumnTotal | src/tables/mod.rs:399-454 | On such a layout a column read succeeds if and only if the row and the column exist |
| TableLayouts.StrictNeverClamps | src/tables/mod.rs:259-278 | Strict parsing keeps every declared count, and permissive parsing then agrees with it |
| TableLayouts.ClampPoint | src/tables/mod.rs:235-282 | Permissive layout always succeeds and clamps from one point on: tables before the first that does not fit keep their declared counts; it and every later non-empty one get as many rows as are left, even more than declared |
| TableSorted.IsOrdered | src/tables/mod.rs:489-498 | Comparing each cell with the one before it decides whether the whole column is non-decreasing |
| TableSorted.VerifySortedness | src/tables/mod.rs:476-513 | Returns the bits of exactly the ordered keyed tables, or the strict error exactly when a declared one is not ordered |
| TableSorted.ParsedConsistent | src/tables/mod.rs:178-299 | After any parse every cell reads, and the sorted bit is set if and only if the table has a key column and it is non-decreasing |
| TableSorted.EmptyConsistent | src/tables/mod.rs:157-171 | The empty stream has no rows, names and declares no table, counts every table as sorted, and satisfies what the lookups rely on |
| TableSorted.Parse | src/tables/mod.rs:178-299 | The whole parser computes the specification the round trip is about |
| TableRoundTrip.LayoutRoundTrip | src/tables/mod.rs:178-299 | A stream written from any rows under the computed widths parses, and every column of every row gives the cell that was written, with any bytes after it |
| TableRoundTrip.StreamRoundTrip | src/tables/mod.rs:178-299 | Permissive parsing of a written stream always succeeds; strict parsing succeeds exactly when no declared-sorted table was written out of order; the tables marked sorted are the keyed ones written in order |
| TableRoundTrip.MeaningfulFits | src/tables/mod.rs:574-622 | The width computed for any column kind holds every cell that refers to something the stream has |
| TableRoundTrip.WidthExact | src/tables/mod.rs:574-622 | A column of any kind is two bytes wide if and only if two bytes hold every cell that refers to something the stream can have |
| TableRoundTrip.EveryContentsHasAnImage | src/tables/mod.rs:206-221 | Any contents of known tables with such cells can be written, with valid bits that name exactly the non-empty tables |
| TableRefusals.CutStream | src/tables/mod.rs:178-299 | A written stream cut before its tables is truncated; cut inside them it is truncated to strict parsing, while permissive parsing still succeeds |
| TableRefusals.NonConformingRefused | src/tables/mod.rs:194-227 | Strict parsing refuses a written stream whose header has an unknown heap size bit as malformed, and else one that names an unknown table as unsupported |
| TableLookup.RowsWithKey | src/tables/lookup.rs:82-114 | On the binary-search branch and on the scanning branch alike, exactly the ascending list of the rows whose key cell is the key; never fails on a parsed stream |
| TableLookup.ListsKeyUnique | src/tables/lookup.rs:82-114 | There is only one such list, so the two branches cannot differ |
| TableLookup.LowerBound | src/tables/lookup.rs:90-100 | The halving loop ends at the first row whose cell is not below the key |
| TableLookup.FirstRowWithKey | src/tables/lookup.rs:117-119 | The first matching row, if any row matches |
| TableLookup.SortKeyNames | src/tables/lookup.rs:125-130 | The computed key is the one cell value that names the parent: it decodes to the token and its row id fits in 24 bits; on an uncoded key the token's table is ignored |
| TableLookup.RowsForParent | src/tables/lookup.rs:133-138 | Exactly the rows whose key cell names the parent, ascending |
| TableLookup.WideKeyMissed | src/tables/lookup.rs:133-138 | Of the rows whose key decodes to the parent, a lookup leaves out exactly those whose row id needs more than 24 bits |
| TableLookup.WideTwin | src/tables/lookup.rs:125-130 | Every kind and every encodable parent has such a key, which fits in 32 bits |
| TableLookup.GenericParams | src/tables/lookup.rs:272-281 | Exactly the owner's rows, strictly ordered by number and then row id, whatever order they are stored in |
| ListColumns.ListRange | src/tables/lookup.rs:145-164 | The run of an owner that exists, clamped to the logical members; an error for any other owner or column |
| ListColumns.RunExact | src/tables/lookup.rs:145-164 | On any column an owner has exactly the members from its cell up to the next cell, none where that is not larger, and the last owner all the later ones |
| ListColumns.RunsPartition | src/tables/lookup.rs:145-164 | The runs of a non-decreasing column never overlap, and cover every logical member if and only if its first cell is 0 or 1 or there is no member |
| ListColumns.OwnerUnique | src/tables/lookup.rs:145-164 | On a non-decreasing column a member has one owner at most |
| ListColumns.OwnerExists | src/tables/lookup.rs:145-164 | On a non-decreasing column the members with an owner are exactly those from the first cell on |
| ListColumns.OwnerOfList | src/tables/lookup.rs:167-207 | On any column, even a non-monotone one: an answer's run contains the member, and no answer means no owner's run does |
| ListColumns.SearchOwner | src/tables/lookup.rs:180-193 | On a non-decreasing column the halving loop finds the last owner that starts at or before the member |
| ListColumns.CandidateSuffices | src/tables/lookup.rs:194-206 | On a non-decreasing column somebody owns the member if and only if that candidate does, so the fallback scan never changes the answer |
| ListColumns.ListColumnsReach | src/tables/lookup.rs:209-253 | Each column the list and owner lookups use is a row id column of the member table they assume, holds every member, through a pointer table too, and one past the last unless there are 0xFFFF |
| ListColumns.TypeOfField | src/tables/lookup.rs:235-237 | On any parsed stream of the standard's schema: the type found has the field in its run, and none is found exactly when no type has |
| ListColumns.TypeOfMethod | src/tables/lookup.rs:240-245 | The same for methods |
| ListColumns.MethodOfParam | src/tables/lookup.rs:248-253 | The same for parameters and their methods |
| ListColumns.WalkContiguous | src/tables/lookup.rs:145-164 | Walking all owners of a non-decreasing column lists the members one after the other, from the first cell to the end |
| ListColumns.WalkVisitsEachRowOnce | src/tables/mod.rs:386-443 | Walking all owners through the pointer table visits each physical row exactly once if and only if the pointer cells permute the physical rows |
| TableRows.Row | src/tables/mod.rs:414-421 | A row decodes if and only if it exists and no coded column has an undefined tag, and then gives every column in order |
| TableRows.RowIndirect | src/tables/mod.rs:424-443 | Decodes the physical row that the pointer table, where there is one, puts in place of a logical row id, or passes its error on |
| TableRows.FieldExact | src/tables/rows.rs:48-68 | A cell decodes to the field it was written from, and a column that is not coded always decodes, to its number |
| TableRows.RowRoundTrip | src/tables/mod.rs:414-421 | A row written from fields decodes to those fields |
| TableRows.RowCursor.Uint | src/tables/mod.rs:105-118 | Reads the next column and moves on by one; past the last column it fails and stays |
| NestedWalk.EndsWithinRows | src/display.rs:60-73 | A chain of enclosing types that ends does so within one step of the row count, because its types are distinct keys |
| NestedWalk.NameComplete | src/display.rs:56-75 | The walk lists the chain in order, and its outermost type has nothing around it if and only if the chain ends; on a cycle it stops at the row count |
| NestedWalk.NameReadable | src/display.rs:56-75 | A chain that ends is named exactly when every type on it decodes |
| NestedWalk.NameRefused | src/display.rs:56-75 | A chain that cannot be named fails at the first type on it that does not decode, as malformed if its row exists and out of range if not |
| NestedWalk.NameTypeDef | src/display.rs:56-75 | The bounded loop computes that walk, with its errors |
| NestedWalk.EnclosingType | src/tables/lookup.rs:292-300 | The enclosing type in the first row of the nested type |
| NestedWalk.NestingReads | src/tables/lookup.rs:292-314 | The two cells of a nesting are columns 0 and 1 of table 0x29 |
| NestedWalk.OuterMeans | src/display.rs:60-73 | One step outwards leads where the first row of the type says, unless that is no type or the type itself |
| NestedWalk.NestedTypes | src/tables/lookup.rs:306-314 | The scan lists the nested types of the rows that name the type, in row order |
| NestedWalk.InsideExact | src/tables/lookup.rs:292-314 | A type is listed inside another exactly when some row says so, so whatever encloses a type lists it |
| NestedWalk.InsideOrdered | src/tables/lookup.rs:306-314 | They are listed by the ascending list of all rows that name the type |

## Left out

- The PE container and the metadata root (src/pe.rs, src/metadata.rs): header reads and a first-match section search.
- Method body headers (src/body.rs:145-251): straight-line reads before the section chain.
- String rendering (src/display.rs) other than the walk outwards; names are the list of types they join.
- UTF-8 and UTF-16 decoding and GUIDs (src/heaps.rs): library text handling and fixed-size reads.
- Error offsets, context strings and diagnostics: an error keeps its kind only.
- The raw slices kept in signatures (`MethodSig::raw` and the like).
- Stack behaviour, flow control and mnemonics in src/il/table.rs: constants without decoding content.
- Typed row structs (src/tables/rows.rs): a row is the list of its decoded columns.
- Inputs of 2^32 bytes or more, where the original's 32-bit casts would lose bits.
- Updating a `Prefixes` record in place: it is a value here and `IlFold.ApplyPrefix` returns the new one, so what a rejected prefix leaves in a record nobody reads is not modelled.
- The library sort in `generic_params`: an insertion sort here; the pairs are distinct, so any sort gives the same list.
- The shape of src/signature.rs: its argument, parameter and local loops are methods of their own (`TypeList`, `ParamList`, `SplitList`, `LocalList`), and so are the bodies of its `parse_with` functions.
- In-place state of `Tables`: it never changes once parsed, so it is a value, and its verified bits are a list of flags instead of a 64-bit integer.
