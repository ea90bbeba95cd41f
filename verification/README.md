# Camera metadata, configuration compiler and display command packs

A Dafny model of three parts of a driver interface repository in which a compact, hand-laid-out
byte format has to agree with something much simpler.

**Camera metadata** (`Bytes`, `MetadataLayout`, `MetadataImage`, `MetadataStore`, `MetadataRun`,
`MetadataDrive`, `MetadataVec`, `MetadataString`, `MetadataWire`). One buffer holds a header, a table of 16-byte entries and a byte
arena. Payloads of up to 4 bytes live in the entry, larger ones in the arena at 8-aligned sizes.
The class `MetadataBuffer` changes table and arena in place; `MetadataImage` says what each
operation does to the whole image; `MetadataRun` relates whole runs of operations to a plain list
of (tag, type, count, payload), and `MetadataDrive` does so for real buffers. Two serialisers sit on
top; `MetadataWire` says byte by byte what they write and how wide each type of item is.

**hc-gen** (`HcsTree`, `TreeWalk`, `AstHeap`, `AstLink`, `HcsBuild`, `ByteCodeGen`, `ByteCodeWrite`,
`Decompile`, `HcsOffsets`, `HcsCompile`, `HcsLexer`, `HcsParser`, `HcsPrinter`, `HcsPrintWalk`,
`HcsText`, `HcsNumbers`, `HcsWords`, `HcsSource`, `HcsGrammar`, `HcsFormat`, `HcsFile`, `HcsPrinted`,
`HcsRoundTrip`, `HcsChain`, `Include`, `TreeMerge`, `MergeHeap`). A compiler
from configuration source to byte code and a decompiler back. `HcsTree` is the tree as a value with
the bytes it stands for; `TreeWalk` is the itinerary of the iterative walks over it; `AstHeap` has
the linked objects the walks really run over, and `Wired(t, gone)` says that the links of those
objects spell the tree `t` with the objects in `gone` skipped. `AstLink` takes such trees apart and
puts them together, so that linking, unlinking and merging are proved one node at a time
(`HoldsIff`). Lexer, parser and decompiler are classes with a cursor; each method is proved equal to
a function of the input and a position, and the objects it makes (`HcsBuild`) to be linked up as the
tree that function gives. The round trips are proved about these functions, and so is what they mean
on any input: `HcsNumbers` and `HcsWords` say what the bytes of each kind of token lex as, `HcsGrammar`
which token lists the parser accepts and for which trees, `HcsFile` which files the decompiler accepts and
for which trees, and `HcsFormat` and `HcsPrinted` what is written, byte by byte.

**Display commands** (`CommandPack`, `CommandUnpack`, `CommandBytes`, `CommandWire`, `BufferHandle`,
`HandleSession`). A packer that back-patches section lengths into a buffer it may have to grow, an
unpacker that finds its way by these lengths (in well-formed packs, and in any bytes), and buffer
handles whose descriptors travel beside the pack in a numbered table; `CommandWire` has the bytes of
packs and handles.

## Main results

- Every run of additions and updates keeps the arena tiled by the spans of the out-of-line items,
  and the buffer behaves like the plain list for ever after, whatever the layout
  (`RunRefines`, `AddsAndUpdatesAreSafe`, `LayoutIsInvisible`, `TiledCovers`; on real buffers `Drive`).
- Every byte vector has its exact outcome: refused, cut short, or rebuilt to the list its items give
  within the capacities (`ConvertVecToMetadata`); what was encoded comes back whole (`VecRoundTrip`).
- One item of any type, however its tag is recorded, is rebuilt with just its bytes, cut short, left
  out or refused, each exactly when the widths of the seven types say so (`OneItemRefusedIff`,
  `OneItemRebuilt`, `ReadOneItem`).
- The recursive-descent parser accepts exactly the sentences of a grammar, and builds the trees they
  stand for: a file is accepted with given includes and a given root exactly if its tokens spell them
  (`HcsGrammar.FileIff`, `KidsIff`, `HeadingIff`). The tokens are pinned to bytes: digits are worth
  their place in every base (`LexDecimal`, `LexSigned`, `LexOctal`, `LexHexadecimal`, `LexBinary`),
  words, strings and comments are what they spell (`LexMeaning`, `LexString`, `LexTwoStars`).
- The decompiler accepts exactly the files in which a tree stands, object by object, whatever the
  bytes (`HcsFile.FileIff`, `ObjectIff`).
- Compiling a linked tree (sizes bottom-up while templates are unlinked, a dummy pass, a real pass)
  and decompiling the file gives the same tree with references replaced by offsets, exactly when
  names and strings are within the reader's limit; every reference is the offset of its target
  (`CompileAndDecompile`, `CompiledReadsBack`, `ReferencesResolve`, `OffsetsDiffer`).
- Decompiled byte code, printed, lexed, parsed and compiled again is the original file, for trees
  without references whose names lex as names, whose strings have no quote, backslash or byte 255,
  whose numbers are below 2^63 at their narrowest width and whose arrays hold one kind of element
  (`PrintedByteCodeRecompiles`). `DecompileAndRecompile` does so with objects throughout: the file is
  read into linked objects, the walk prints them, the parser links up others, and the generator's
  walks over those write the file again.
- The backward walk visits a tree in post-order although its callback unlinks objects, and leaves
  the pruned tree with intact links: an object is left exactly when neither it nor an ancestor of it
  below the root is a deleted node or a term whose value is the deletion mark (`NodeExpandDelete`);
  the generator's walk drops templates in the same way (`ByteCodeConvert`).
- Merging takes, at every path, the value of the last tree that has one; copying is an idempotent
  left-biased union (`MergeAll`, `CopyKeepsFirst`, `CopyIdempotent`), and both leave siblings in place
  and put missing ones behind them in order (`MergePlaces`, `CopyPlaces`). Merging linked trees in place,
  by separating and adding children, leaves objects linked up as exactly the merged tree
  (`MergeTrees`, `MergeInto`).
- Loading with includes succeeds exactly when no cycle and no broken file is reachable, in
  post-order (`LoadsIff`, `CircularIff`, `LoadOrder`, `LoadedFiles`).
- Whole packing sessions, failed sections rolled back, have exactly one outcome (`Decided`,
  `DecidedOnce`), and the responder receives the sections that went through, however little or much
  its handlers read (`Session`, `ServeRequest`). The first requester takes a reply exactly when every
  command is known and every handler reads inside the pack and is content (`DoReplyResults`); the
  later one, whose loop hands the rest of a reply to the first one's, sees every section exactly when
  all commands are its own (`DoReplyResultsV12`, `SeenAll`).
- On any bytes whatever, a loop over sections comes to an end exactly if it never gets to a section
  of recorded length 0 that its handlers let pass for ever; where it goes until then is determined
  (`EndsIff`, `ServeBytes`, `ReplyBytes`).
- Buffer handles come back with the very descriptors sent, exactly when the buffer takes their
  section and the closing command (`HandlesThroughPack`, `SendsAloneIff`); a handle whose own
  descriptors arrived is restored whatever else the table lost (`PackedUnpacks`, `LostPassedOver`).

## Where the code narrows the obvious claim

- Deleting by index leaves later offsets alone when they do not exceed the freed size
  (camera_metadata_info.cpp:1505-1506). Deletion refines removal exactly when the item is inline,
  or its offset is not 0, or it is the only out-of-line item (`DeleteRefinesIff`, `DeleteBreaks`;
  two five-byte items are enough, `StaleOffset`).
- An update whose payload is so large that its 32-bit size wraps can be refused after the old span
  was already squeezed out, or after the bounded copy has cleared an item of up to four bytes (section
  K.3.7.1.1 of ISO/IEC 9899:2011). A refusal leaves the buffer alone exactly under `RefusalIsClean`,
  clears one item and nothing else under `RefusalBlanks`, and breaks the tiling in every other case;
  `WrappedUpdate` and `BlankingUpdate` give one refusal of each harmful kind.
- A buffer whose data capacity is not a multiple of 8 cannot locate its own item table
  (`ReachableIffAligned`); the growing path and the vector decoder round it up.
- Decoding an image with data capacity 0 is refused (metadata_utils.cpp:532), and one whose arena
  is cut short is accepted with a blank arena, because the failing check returns an empty value that
  is equal to success.
- The decompiler compares a string's length with the token number 256 (decompile.cpp:115), so
  strings of more than 257 bytes are refused: `CompiledReadsBack` states success exactly for `Fits`.
- A node merged with a `delete` node is not removed at once: the node type is compared with the
  token number 264 (ast.cpp:524), which no type has. The merged node becomes a `delete` node and is
  removed by the later walk.
- A file whose root node is refused still counts as loaded when it includes another file
  (parser.cpp:105). A comment ending in two stars and a slash is not closed (`LexTwoStars`), and blanks
  between decimal digits are skipped (`LexDecimal`), as are those behind a leading 0 (`LexZero`); octal
  digits end at the first 8 or 9 (`LexOctal`). Lexer and printer agree because the printer writes none
  of these.
- A section or pack that ends exactly at the end of the buffer is refused, even with growth on, and
  so is a section with reserved room past the page its payload ends on (`AdaptiveAdmits`).
- The later requester handles its own command only and leaves everything behind the first other
  section to the first requester's loop, which begins by jumping over that very section
  (v1_2/display_command/display_cmd_requester.h:219-223, command_data_unpacker.h:106-113). So a lone
  section of the first requester's is accepted without being looked at (`LoneSectionSkipped`), the
  later requester's own section is refused behind one of the first requester's
  (`OwnSectionRefused`), and errors reported right behind a commit are never seen (`ErrorsSkipped`).
- A section of recorded length 0 with a known command keeps the responder's loop where it is
  (`NeverEnds`); well-formed packs have none (`PackEnds`).
- A reserve descriptor that is missing from the table goes unnoticed exactly when the handle has
  extra integers (display_cmd_utils.h:316-331); the integers are then read from behind the missing
  descriptor's number, and the next value from inside this handle unless the last descriptor was the
  missing one: `LossNoticedIff`, with a whole handle in `LossHidden`.
- The descriptor counter's overflow test holds for every 32-bit counter, so the largest one is
  incremented too, which C++ leaves undefined. The model takes it to wrap to negative numbers;
  `HandlesThroughPack` asks for a counter that does not reach its maximum.

## Model

| member | source | states |
|---|---|---|
| Bytes.FromToLE | camera/metadata/include/metadata_utils.h:58-84 | a word that fits its width survives being pushed byte by byte and read back |
| Bytes.ToFromLE | camera/metadata/include/metadata_utils.h:58-84 | bytes read as a word and written again are the same bytes |
| MetadataLayout.TiledCovers | camera/metadata/src/camera_metadata_info.cpp:1037-1111 | in a tiled arena every used byte belongs to exactly one item |
| MetadataStore.MetadataBuffer.constructor | camera/metadata/src/camera_metadata_info.cpp:749-779 | a laid-out buffer is valid and empty, with the size its capacities call for |
| MetadataStore.MetadataBuffer.Allocate | camera/metadata/src/camera_metadata_info.cpp:798-822 | allocation fails exactly beyond the capacity limits, otherwise gives an empty valid buffer |
| MetadataStore.MetadataBuffer.ReachableIffAligned | camera/metadata/src/camera_metadata_info.cpp:731-747 | the item table of a valid buffer is locatable exactly when the data capacity is 8-aligned |
| MetadataStore.MetadataBuffer.AddItem | camera/metadata/src/camera_metadata_info.cpp:996-1111 | the verdict of an addition for every input, oversize payloads included; success gives the image with the item added and appends to the contents, a refusal changes nothing |
| MetadataStore.MetadataBuffer.GetItem | camera/metadata/src/camera_metadata_info.cpp:1113-1171 | reading succeeds exactly for indices in range and gives the abstract item |
| MetadataStore.MetadataBuffer.FindIndex | camera/metadata/src/camera_metadata_info.cpp:1173-1210 | finds the first item with a tag, refusing pinned tags recorded with another type |
| MetadataStore.MetadataBuffer.SetOffset | camera/metadata/src/camera_metadata_info.cpp:1236-1246 | an offset behind the freed span is lowered, every other entry is left alone |
| MetadataStore.MetadataBuffer.CompactArena | camera/metadata/src/camera_metadata_info.cpp:1248-1284 | the image after squeezing out a span is the compacted one |
| MetadataStore.MetadataBuffer.RewriteItem | camera/metadata/src/camera_metadata_info.cpp:1363-1376 | replacing a payload of the same size class; a failing copy leaves the arena alone but clears an entry |
| MetadataStore.MetadataBuffer.ResizeItem | camera/metadata/src/camera_metadata_info.cpp:1337-1362 | moving an item between entry and arena or to the arena's end gives the updated image; a late failure breaks the tiling |
| MetadataStore.MetadataBuffer.UpdateItemSize | camera/metadata/src/camera_metadata_info.cpp:1319-1377 | the update's verdict; once the capacity check passes no representable payload fails |
| MetadataStore.MetadataBuffer.UpdateByIndex | camera/metadata/src/camera_metadata_info.cpp:1379-1417 | success replaces one element of the contents; a refusal leaves the buffer unchanged, zeroes the item's up to four bytes, or leaves it invalid, each exactly when the guards say so |
| MetadataStore.BlankedItems | camera/metadata/src/camera_metadata_info.cpp:1370-1376 | clearing the four bytes of an inline item zeroes its payload, keeps the tiling and touches no other item |
| MetadataStore.MetadataBuffer.DeleteByIndex | camera/metadata/src/camera_metadata_info.cpp:1470-1526 | deletion gives the guarded image, valid exactly when the guard was idle, and then the contents without the item |
| MetadataStore.MetadataBuffer.FreeSpan | camera/metadata/src/camera_metadata_info.cpp:1491-1509 | the arena half of a deletion, with the extra guard |
| MetadataStore.MetadataBuffer.DropEntry | camera/metadata/src/camera_metadata_info.cpp:1515-1523 | the table half of a deletion |
| MetadataStore.CopyItems | camera/metadata/src/camera_metadata_info.cpp:1574-1612 | copying into an empty buffer fails exactly when it is too small, otherwise keeps the contents |
| MetadataStore.CameraMetadata.AddEntry | camera/metadata/src/camera_metadata_info.cpp:549-573 | when an addition with growth succeeds, exactly; success appends, failure changes nothing |
| MetadataStore.CameraMetadata.EnlargedWith | camera/metadata/src/camera_metadata_info.cpp:575-615 | growth fails exactly when a doubled capacity exceeds the limits, and keeps all earlier items |
| MetadataStore.CameraMetadata.ResizeAdd | camera/metadata/src/camera_metadata_info.cpp:575-619 | replaces the buffer by the grown one and counts the growth |
| MetadataStore.GrowthLimit | camera/metadata/include/camera_metadata_info.h:27-28 | one object can grow at most 12 times |
| MetadataStore.GrowthArithmetic | camera/metadata/src/camera_metadata_info.cpp:587-594 | the doubled arena size in 32-bit arithmetic is the true one, or refused, or too small for the payload |
| MetadataImage.AddRefines | camera/metadata/src/camera_metadata_info.cpp:1037-1111 | adding appends to the abstract sequence and keeps the tiling |
| MetadataImage.UpdateRefines | camera/metadata/src/camera_metadata_info.cpp:1236-1417 | updating replaces one element, every other item reads back the same, and the tiling is kept |
| MetadataImage.CompactKeeps | camera/metadata/src/camera_metadata_info.cpp:1248-1284 | squeezing out one span keeps every other item readable and apart |
| MetadataImage.DeleteRefinesIff | camera/metadata/src/camera_metadata_info.cpp:1470-1526 | deletion keeps the tiling exactly under the guard's condition, and then removes the element |
| MetadataImage.DeleteBreaks | camera/metadata/src/camera_metadata_info.cpp:1504-1507 | in the remaining case there is a neighbour behind the freed span; it keeps that offset although its bytes moved to 0, and the tiling is lost |
| MetadataImage.StaleOffset | camera/metadata/src/camera_metadata_info.cpp:1504-1507 | two five-byte items: deleting the first leaves the second at offset 8 of an arena of which 8 bytes are used |
| MetadataRun.StepRefines | camera/metadata/src/camera_metadata_info.cpp:1037-1526 | one operation on a tiled image is the operation on the plain list |
| MetadataRun.RunRefines | camera/metadata/src/camera_metadata_info.cpp:1037-1526 | every safe run keeps the tiling and gives the list of the plain run |
| MetadataRun.AddsAndUpdatesAreSafe | camera/metadata/src/camera_metadata_info.cpp:1037-1417 | runs of additions and updates are safe from every layout |
| MetadataRun.LayoutIsInvisible | camera/metadata/src/camera_metadata_info.cpp:1236-1417 | buffers with equal contents and capacities stay equal under any safe runs |
| MetadataDrive.Drive | camera/metadata/src/camera_metadata_info.cpp:1037-1526 | a real buffer driven by any safe list of additions, updates and deletions holds what the plain list does |
| MetadataDrive.WrappedUpdate | camera/metadata/src/camera_metadata_info.cpp:1319-1377 | a payload whose 32-bit size wraps to 8 passes the room check and leaves a broken buffer behind its refusal |
| MetadataDrive.BlankingUpdate | camera/metadata/src/camera_metadata_info.cpp:1319-1377 | a payload whose 32-bit size wraps to 0 is refused with a valid buffer whose item has become zeros |
| MetadataVec.ConvertMetadataToVec | camera/metadata/src/metadata_utils.cpp:66-117 | the vector is a function of capacities and contents; refused exactly when an item's count is out of range |
| MetadataVec.ConvertVecToMetadata | camera/metadata/src/metadata_utils.cpp:264-320 | for every vector, whether it is refused, cut short or rebuilt, and then the contents and capacities |
| MetadataVec.ParseWritten | camera/metadata/src/metadata_utils.cpp:158-262 | an item reads back from where it was written |
| MetadataVec.AddAll | camera/metadata/src/metadata_utils.cpp:308-319 | adding read items one by one gives the list they make within the capacities, laid out in order, or stops at a tag recorded with a wider type whose addition gets past the room checks |
| MetadataVec.RebuildWhole | camera/metadata/src/metadata_utils.cpp:308-319 | items recorded with the types they carry are all rebuilt when they are within the capacities |
| MetadataVec.WrittenDecodes | camera/metadata/src/metadata_utils.cpp:264-320 | a written vector is accepted and all its items are rebuilt |
| MetadataVec.VecRoundTrip | camera/metadata/src/metadata_utils.cpp:66-320 | encoding and decoding keeps contents and item capacity and gives the canonical layout |
| MetadataVec.EncodeBoth | camera/metadata/src/metadata_utils.cpp:66-117 | equal contents and capacities encode identically whatever the layout |
| MetadataString.EncodeToString | camera/metadata/src/metadata_utils.cpp:426-501 | header, used entries and used arena bytes, one after the other |
| MetadataString.DecodeFromString | camera/metadata/src/metadata_utils.cpp:503-596 | which images are accepted and what they restore, for every string |
| MetadataString.StringRoundTrip | camera/metadata/src/metadata_utils.cpp:426-596 | decoding an encoded valid buffer restores it exactly, refused exactly when the data capacity is 0 |
| MetadataWire.OneItemRefusedIff | camera/metadata/src/metadata_utils.cpp:158-300 | a vector of one item is refused exactly beyond a limit, or if its payload is short of 1, 4, 4, 4, 8, 8 or 8 bytes per element |
| MetadataWire.OneItemRebuilt | camera/metadata/src/metadata_utils.cpp:191-319 | whichever type its tag is recorded with, what becomes of the one item of a vector |
| MetadataWire.ReadOneItem | camera/metadata/src/metadata_utils.cpp:264-320 | one item of each type is rebuilt with just its bytes; up to four of them take no arena, more take whole multiples of eight |
| MetadataWire.HeaderWire | camera/metadata/include/camera_metadata_operator.h:74-83 | the words of an image's header, in order |
| MetadataWire.EntryWire | camera/metadata/include/camera_metadata_operator.h:85-93 | the words of a table entry, in order |
| HcsTree.EmitLength | tools/hc-gen/src/bytecode_gen.cpp:135-174 | the bytes emitted for a subtree are as many as its computed size |
| HcsTree.HeadsArePreEmit | tools/hc-gen/src/bytecode_gen.cpp:198-246 | writing object by object in pre-order emits the subtree |
| TreeWalk.WalkOrders | tools/hc-gen/src/ast.h:303-379 | a walk enters objects in pre-order and is done with them in post-order |
| TreeWalk.LeaveOnce | tools/hc-gen/src/ast.h:339-379 | no object is left twice |
| TreeWalk.GoneAtEnd | tools/hc-gen/src/ast.h:339-379 | at the end of a pruning walk exactly the doomed objects below the root are gone |
| TreeWalk.PruneKeepsIff | tools/hc-gen/src/ast.h:339-379 | an object survives a pruning walk exactly if neither it nor an ancestor of it below the root is doomed |
| TreeWalk.KidLeft | tools/hc-gen/src/ast.h:339-379 | children are left before their parent |
| AstHeap.AstObject.Separate | tools/hc-gen/src/ast.cpp:315-336 | unlinking one child keeps the links of the others |
| AstHeap.AstObject.AddChild | tools/hc-gen/src/ast.cpp:122-139 | an object without peers is linked behind the children, whose links stay |
| AstHeap.AstObject.AddPeer | tools/hc-gen/src/ast.cpp:141-170 | the walk to the last peer and the new link |
| AstLink.HoldsIff | tools/hc-gen/src/ast.h:139-141 | links and labels of a whole tree are right exactly when they are at its root and in each child's tree |
| AstHeap.Remove | tools/hc-gen/src/ast.cpp:274-279 | a removed object is cut off and the rest of the tree stays linked |
| AstHeap.AtEvent | tools/hc-gen/src/ast.h:339-379 | the links of a partly pruned tree lead the walk to its next event |
| AstHeap.NodeExpandDelete | tools/hc-gen/src/ast.cpp:1028-1047 | visits the original tree in post-order; links and labels of what is left are intact, and an object is left exactly when neither it nor an ancestor below the root is a node of kind delete or a term whose value is the deletion mark |
| ByteCodeGen.SumChildren | tools/hc-gen/src/bytecode_gen.cpp:165-170 | the sizes of the children still linked, in 32-bit arithmetic |
| ByteCodeGen.CalculateSize | tools/hc-gen/src/bytecode_gen.cpp:149-174 | size, sub-size and op code of an object whose children are done |
| ByteCodeGen.ByteCodeConvert | tools/hc-gen/src/bytecode_gen.cpp:81-98 | unlinks exactly the templates below the root with all they hold, and sizes everything left; succeeds exactly when every object has an op code |
| ByteCodeWrite.ByteCodeWriter.Write | tools/hc-gen/src/bytecode_gen.cpp:135-147 | one padded write, output only in the real pass |
| ByteCodeWrite.ByteCodeWriter.WriteOne | tools/hc-gen/src/bytecode_gen.cpp:198-246 | notes the object's offset and writes its head |
| ByteCodeWrite.ByteCodeWriter.WriteWalk | tools/hc-gen/src/bytecode_gen.cpp:198-246 | either pass gives every object its file offset; the real one writes the bytes those offsets ask for |
| ByteCodeWrite.ByteCodeWriter.ByteCodeWrite | tools/hc-gen/src/bytecode_gen.cpp:176-196 | header and objects of one pass |
| ByteCodeWrite.ByteCodeWriter.Output | tools/hc-gen/src/bytecode_gen.cpp:32-55 | the file of the tree without templates, every reference written as the final offset of its target |
| HcsOffsets.PositionAt | tools/hc-gen/src/bytecode_gen.cpp:202-203 | an object starts where the heads before it end |
| HcsOffsets.LocatedAt | tools/hc-gen/src/decompile.cpp:142-178 | the decompiled tree holds every object at its position in the file |
| Decompile.StringReadsBack | tools/hc-gen/src/decompile.cpp:107-128 | a NUL-free string reads back exactly when it is within the limit |
| Decompile.ObjectReadsBack | tools/hc-gen/src/decompile.cpp:142-294 | a written subtree reads back, located, exactly when its strings fit |
| Decompile.FileReadsBack | tools/hc-gen/src/decompile.cpp:50-69 | header, alignment and root of a written file read back |
| Decompile.FileTotal | tools/hc-gen/src/bytecode_gen.cpp:181-188 | the header's total is the file length without the header, its sign the alignment |
| Decompile.FileReader.GetString | tools/hc-gen/src/decompile.cpp:107-128 | the string reader, limit and alignment included |
| Decompile.FileReader.GetNumber | tools/hc-gen/src/decompile.cpp:71-105 | numbers, widened to a word in aligned files |
| Decompile.FileReader.RebuildNode | tools/hc-gen/src/decompile.cpp:142-178 | a node with as many children as its sub-size covers, its object linked to theirs |
| Decompile.FileReader.RebuildKids | tools/hc-gen/src/decompile.cpp:150-177 | the loop over the children up to the end of the node, whose object is linked to theirs |
| Decompile.FileReader.RebuildInto | tools/hc-gen/src/decompile.cpp:161-176 | the next object is rebuilt and linked behind the children so far |
| Decompile.FileReader.RebuildArray | tools/hc-gen/src/decompile.cpp:239-260 | an array with as many elements as its count says, its object linked to theirs |
| Decompile.FileReader.RebuildAst | tools/hc-gen/src/decompile.cpp:296-311 | what every file decompiles to, refusals included, and the linked objects for it |
| HcsFormat.HeadFormat | tools/hc-gen/src/bytecode_gen.cpp:198-246 | what every kind of object puts into the file, op code, fields and padding, in either alignment |
| HcsFormat.FileFormat | tools/hc-gen/src/opcode.h:23-45 | the five words in front of the root, the size negated in aligned files |
| HcsFormat.SampleFile | tools/hc-gen/src/bytecode_gen.cpp:176-246 | one small file with a number and a reference, byte by byte, in either alignment |
| HcsFile.ObjectIff | tools/hc-gen/src/decompile.cpp:142-294 | an object is read from any bytes exactly if it stands there, and reading goes on right behind it |
| HcsFile.FileIff | tools/hc-gen/src/decompile.cpp:50-69 | any file decompiles to a tree exactly if it starts with the magic number and that tree stands behind the header |
| HcsFile.StringIff | tools/hc-gen/src/decompile.cpp:107-128 | a string is read exactly if it is there, with its NUL and padding, and has no more than 257 bytes |
| HcsBuild.Attach | tools/hc-gen/src/ast.cpp:868-877 | linking one more object below another extends the tree its objects are linked up as; an array counts it |
| HcsBuild.Relabel | tools/hc-gen/src/parser.cpp:262-277 | giving a node another kind changes nothing else about its objects |
| HcsCompile.CompiledReadsBack | tools/hc-gen/src/bytecode_gen.cpp:176-246 | a compiled tree decompiles to itself, exactly when its strings fit |
| HcsCompile.ReferencesResolve | tools/hc-gen/src/bytecode_gen.cpp:232-237 | a reference decompiles to the offset by which the decompiled tree knows its target |
| HcsCompile.OffsetsDiffer | tools/hc-gen/src/bytecode_gen.cpp:202-203 | different objects have different offsets |
| HcsCompile.CompileAndDecompile | tools/hc-gen/src/decompile.cpp:296-311 | the whole generator followed by the whole reader, from linked objects to linked objects |
| HcsLexer.Lexer.Lex | tools/hc-gen/src/lexer.cpp:89-121 | the next token of every source at every position |
| HcsLexer.Lexer.SkipComment | tools/hc-gen/src/lexer.cpp:192-223 | where a comment ends, if it does |
| HcsLexer.Lexer.LexFromString | tools/hc-gen/src/lexer.cpp:254-278 | strings with escaped quotes |
| HcsLexer.Lexer.LexFromNumber | tools/hc-gen/src/lexer.cpp:280-348 | octal, hexadecimal, binary and signed decimal numbers, refused outside 64 bits |
| HcsLexer.Lexer.LexFromLiteral | tools/hc-gen/src/lexer.cpp:350-388 | keywords, truth values, paths and names |
| HcsNumbers.LexDecimal | tools/hc-gen/src/lexer.cpp:328-346 | digits with gaps between them lex as their positional value in base 10, or as an error from 2^63 on |
| HcsNumbers.DecimalReads | tools/hc-gen/src/lexer.cpp:328-346 | a number written out in decimal, with or without a minus sign, lexes as that number, as a 64-bit pattern |
| HcsNumbers.LexSigned | tools/hc-gen/src/lexer.cpp:328-346 | a sign in front, and 2^64 less the value for a minus, down to -2^63 |
| HcsNumbers.LexOctal | tools/hc-gen/src/lexer.cpp:313-325 | digits behind a 0 are octal, up to the first that is none |
| HcsNumbers.LexZero | tools/hc-gen/src/lexer.cpp:313-327 | a 0 with nothing numeric behind it |
| HcsNumbers.LexHexadecimal | tools/hc-gen/src/lexer.cpp:283-291 | digits of either case behind 0x or 0X, in base 16 |
| HcsNumbers.LexBinary | tools/hc-gen/src/lexer.cpp:292-299 | zeros and ones behind 0b, in base 2 |
| HcsNumbers.DigitsAreWorth | tools/hc-gen/src/lexer.cpp:25-28 | the digits of a number, the last one its remainder, are worth that number in every base |
| HcsWords.LexMeaning | tools/hc-gen/src/lexer.cpp:350-388 | a word is a truth value, a keyword, a path if it has a dot, or a name |
| HcsWords.LexHashWord | tools/hc-gen/src/lexer.cpp:98-100 | behind `#` only `include` is allowed |
| HcsWords.LexSingle | tools/hc-gen/src/lexer.cpp:89-121 | symbols, the end of the input, and bytes that start nothing |
| HcsWords.LexString | tools/hc-gen/src/lexer.cpp:254-278 | a string with its quotes escaped lexes as its text |
| HcsWords.LexBadEscape | tools/hc-gen/src/lexer.cpp:260-265 | a backslash before anything but a quote is an error |
| HcsWords.LexOpenString | tools/hc-gen/src/lexer.cpp:270-273 | a string that is not closed is an error |
| HcsWords.LexLineComment | tools/hc-gen/src/lexer.cpp:201-206 | what stands behind two slashes up to the line end is skipped |
| HcsWords.LexBlockComment | tools/hc-gen/src/lexer.cpp:207-217 | what stands between the comment marks is skipped |
| HcsWords.LexTwoStars | tools/hc-gen/src/lexer.cpp:207-217 | two stars and a slash do not end a comment, a later end does |
| HcsWords.LexOpenComment | tools/hc-gen/src/lexer.cpp:207-217 | a block comment that is not closed is an error |
| HcsGrammar.KidsIff | tools/hc-gen/src/parser.cpp:177-440 | what stands up to a closing brace is accepted with these members exactly if its tokens spell them |
| HcsGrammar.ListSound | tools/hc-gen/src/parser.cpp:399-440 | an accepted list has elements of one kind, separated by commas, perhaps with one behind the last |
| HcsGrammar.HeadingIff | tools/hc-gen/src/parser.cpp:133-175 | the includes of a file are read without an error exactly if they are there and name files |
| HcsGrammar.FileIff | tools/hc-gen/src/parser.cpp:57-94 | a file is accepted with these includes and this root exactly if its tokens spell them, up to the end |
| HcsSource.RefTermReads | tools/hc-gen/src/parser.cpp:239-245 | a term with an ampersand and a path refers to that path, wherever there are gaps |
| HcsSource.DeleteTermReads | tools/hc-gen/src/parser.cpp:246-248 | a term with the keyword for it has the deletion mark as its value |
| HcsSource.TemplateReads | tools/hc-gen/src/parser.cpp:262-277 | the keyword, a name and a body inside a node are a child of kind template |
| HcsParser.FitWidthIsNarrowest | tools/hc-gen/src/ast.cpp:109-120 | a 64-bit number fits its width and no narrower one |
| HcsParser.Parser.ParseNode | tools/hc-gen/src/parser.cpp:177-214 | a node's contents up to its closing brace, and the objects linked up as them |
| HcsParser.Parser.ParseInto | tools/hc-gen/src/parser.cpp:188-207 | one member is parsed and its object linked behind those of the members so far |
| HcsParser.Parser.ParseNodeAndTerm | tools/hc-gen/src/parser.cpp:279-304 | a node or term after its name |
| HcsParser.Parser.ParseNodeWithRef | tools/hc-gen/src/parser.cpp:306-397 | copies, references, deletions and inheritance, and the kind the node's object gets |
| HcsParser.Parser.ParseTerm | tools/hc-gen/src/parser.cpp:216-260 | a term's value and its semicolon |
| HcsParser.Parser.ParseArray | tools/hc-gen/src/parser.cpp:399-440 | arrays of one kind of element, a trailing comma allowed, and their objects |
| HcsParser.Parser.ProcessInclude | tools/hc-gen/src/parser.cpp:133-175 | the includes of a file, and whether one was malformed |
| HcsParser.Parser.ParseOneContent | tools/hc-gen/src/parser.cpp:57-94 | the root node and includes of every file, and the linked objects of the root |
| HcsPrinter.WalkPrints | tools/hc-gen/src/decompile_gen.cpp:133-180 | what the two callbacks print along a walk is the text of the tree |
| HcsPrinter.DepthStep | tools/hc-gen/src/ast.h:380-418 | the depth changes by one downwards and upwards and stays between siblings |
| HcsPrintWalk.DecompileGen.PrintArrayType | tools/hc-gen/src/decompile_gen.cpp:81-99 | the elements with separators between them |
| HcsPrintWalk.DecompileGen.PrintBaseType | tools/hc-gen/src/decompile_gen.cpp:101-131 | the text of a value; fails exactly on what is none |
| HcsPrintWalk.DecompileGen.OutPut | tools/hc-gen/src/decompile_gen.cpp:182-199 | walking the linked tree prints the file comment and the text of the tree |
| HcsPrinted.ValueFormat | tools/hc-gen/src/decompile_gen.cpp:81-131 | numbers in capital hexadecimal, strings in quotes, arrays in brackets with a comma and a blank between elements |
| HcsPrinted.PrintFormat | tools/hc-gen/src/decompile_gen.cpp:133-180 | a node's name and braces around its members, a term on one line, four blanks a level |
| HcsPrinted.Fragments | tools/hc-gen/src/decompile_gen.cpp:24-24 | the fragments of text and the file comment, character by character |
| HcsText.DigitsAppend | tools/hc-gen/src/lexer.cpp:280-348 | the digits of a number are positional, whatever the base |
| HcsText.HexReadsBack | tools/hc-gen/src/lexer.cpp:280-290 | hexadecimal digits read back as the number they were written for |
| HcsText.LexScalar | tools/hc-gen/src/lexer.cpp:254-348 | a printed value lexes as one token of that value |
| HcsText.MemberParses | tools/hc-gen/src/parser.cpp:279-304 | a printed node or term parses to itself |
| HcsText.PrintedFileParses | tools/hc-gen/src/parser.cpp:57-94 | a printed file parses to the printed tree, with nothing left over |
| HcsSource.IncludesAreRead | tools/hc-gen/src/parser.cpp:133-175 | a source that starts with include lines includes those files, in order, and goes on with the token behind them |
| HcsSource.RefNodeParses | tools/hc-gen/src/parser.cpp:306-397 | a node written with a copy, reference, inheritance or deletion behind its name parses to that node with that kind |
| HcsRoundTrip.SameBytes | tools/hc-gen/src/bytecode_gen.cpp:198-246 | trees of the same shape have the same byte code, whatever identifies their objects |
| HcsRoundTrip.PrintedByteCodeRecompiles | tools/hc-gen/src/decompile_gen.cpp:81-199 | decompiling, printing, parsing and compiling gives the original file bit for bit |
| HcsRoundTrip.PrintAndParse | tools/hc-gen/src/decompile_gen.cpp:182-199 | printing a linked tree and parsing the text gives the tree, and other objects linked up as it |
| HcsRoundTrip.LinkedPrintIsTheText | tools/hc-gen/src/decompile_gen.cpp:133-180 | a linked tree of the decompiled shape can be printed and prints as the decompiled tree |
| HcsChain.LikeOriginal | tools/hc-gen/src/parser.cpp:177-260 | the objects of a parsed printout have the shape of the compiled tree, object by object, and every one of them can be written |
| HcsChain.ReadyToCompile | tools/hc-gen/src/ast.cpp:1028-1047 | there is nothing in them to delete or to leave out as a template, and the generator accepts them |
| HcsChain.DecompileAndRecompile | tools/hc-gen/src/decompile_gen.cpp:182-199 | a compiled file is rebuilt as linked objects, printed by the walk over them, parsed into linked objects, cleared of deletions and compiled from those to the same file, exactly when the text fits the lexer's buffer |
| Include.Loader.ParseOne | tools/hc-gen/src/parser.cpp:96-131 | terminates on every include graph and gives the files to merge, none on failure |
| Include.LoadsIff | tools/hc-gen/src/parser.cpp:96-131 | loading succeeds exactly when neither a cycle nor a broken file is reachable |
| Include.CircularIff | tools/hc-gen/src/parser.cpp:111-115 | with no broken file in reach, a circular include is reported exactly when there is one |
| Include.LoadOrder | tools/hc-gen/src/parser.cpp:111-125 | a file comes after everything it includes, and the first one last |
| Include.LoadedFiles | tools/hc-gen/src/parser.cpp:96-126 | the files loaded are exactly those reachable |
| TreeMerge.MergeAt | tools/hc-gen/src/ast.cpp:513-548 | every path leads where the merged tree leads, or else where it led before |
| TreeMerge.MergeTakesLast | tools/hc-gen/src/ast.cpp:772-784 | terms take the value, nodes the kind, of the tree merged in |
| TreeMerge.MergeUnique | tools/hc-gen/src/ast.cpp:513-548 | merging keeps (name, type) unique among siblings |
| TreeMerge.MergeAll | tools/hc-gen/src/ast.cpp:949-970 | merging a list fails exactly on duplicate names; every term has the value of the last tree that defines it |
| TreeMerge.CopyKeepsFirst | tools/hc-gen/src/ast.cpp:619-639 | copying without overwriting is a left-biased union |
| TreeMerge.CopyIdempotent | tools/hc-gen/src/ast.cpp:619-639 | copying twice is copying once, and copying a tree into itself changes nothing |
| TreeMerge.MergePlaces | tools/hc-gen/src/ast.cpp:514-549 | children stay in place with their counterparts merged into them, and those missing stand behind them in order |
| TreeMerge.CopyPlaces | tools/hc-gen/src/ast.cpp:619-639 | children stay in place with their counterparts copied into them, and those missing stand behind them in order |
| MergeHeap.Find | tools/hc-gen/src/ast.cpp:281-293 | the first child with a name and type |
| MergeHeap.MoveChild | tools/hc-gen/src/ast.cpp:537-539 | a child without a counterpart is separated from the source and added to the target; both chains and all trees below stay linked |
| MergeHeap.MergeChild | tools/hc-gen/src/ast.cpp:541-543 | a child with a counterpart is merged into it; the emptied child keeps its place in the source |
| MergeHeap.TakeValue | tools/hc-gen/src/ast.cpp:772-784 | a term's value is separated from the source and becomes the only child of the target |
| MergeHeap.MergeChildren | tools/hc-gen/src/ast.cpp:533-546 | the loop over the source's linked children leaves the target with the merged children, and no object ends up in two places |
| MergeHeap.MergeInto | tools/hc-gen/src/ast.cpp:513-548 | merging linked objects in place leaves them holding the merged tree |
| MergeHeap.MergeTrees | tools/hc-gen/src/ast.cpp:513-548 | the links and labels of all the objects are those of the merged tree |
| CommandPack.CommandDataPacker.Init | display/composer/command_pack/command_data_packer.h:47-65 | the buffer size is rounded up to whole pages, in 32 bits |
| CommandPack.CommandDataPacker.Write | display/composer/command_pack/command_data_packer.h:199-229 | when a write succeeds, exactly; growth keeps what was written |
| CommandPack.CommandDataPacker.PackBegin | display/composer/command_pack/command_data_packer.h:112-121 | starts an empty pack with its opening command |
| CommandPack.CommandDataPacker.BeginSection | display/composer/command_pack/command_data_packer.h:123-140 | opens a section, refusing misaligned lengths |
| CommandPack.CommandDataPacker.EndSection | display/composer/command_pack/command_data_packer.h:142-162 | patches the length in and adds the section, exactly when it ends strictly inside the buffer |
| CommandPack.CommandDataPacker.PackEnd | display/composer/command_pack/command_data_packer.h:164-171 | closes a pack, exactly when it ends strictly inside the buffer |
| CommandPack.CommandDataPacker.RollBack | display/composer/command_pack/command_data_packer.h:107-110 | going back to where a section started keeps the finished ones |
| CommandPack.CommandDataPacker.PackSection | display/composer/v1_0/display_command/display_cmd_requester.h:131-172 | a section is packed as a whole or not at all, exactly when the buffer admits it |
| CommandPack.AdaptiveAdmits | display/composer/command_pack/command_data_packer.h:142-162 | with growth on: a section whose payload fills it and whose writes can be reached is refused exactly when misaligned or ending on a page boundary at or past the buffer's end; reserved room past the page of its last write and past the buffer is always refused |
| CommandPack.SendsAloneIff | display/composer/command_pack/command_data_packer.h:112-171 | a new buffer takes the opening command, one section and the closing command exactly when the section and the pack can end where they do |
| CommandWire.SectionWire | display/composer/command_pack/command_data_packer.h:123-162 | the words of a section and its length, reserved room included |
| CommandWire.PackWire | display/composer/command_pack/command_data_packer.h:112-171 | a pack whose sections reserve no room is exactly these bytes |
| CommandUnpack.CommandDataUnpacker.Read | display/composer/command_pack/command_data_unpacker.h:148-163 | the next bytes, exactly if the pack has them |
| CommandUnpack.CommandDataUnpacker.BeginSection | display/composer/command_pack/command_data_unpacker.h:90-104 | opens a section exactly when its header is there and its magic is right |
| CommandUnpack.CommandDataUnpacker.NextSection | display/composer/command_pack/command_data_unpacker.h:106-113 | jumps to the end of the section; whether another follows, in 64-bit arithmetic |
| CommandUnpack.CommandDataUnpacker.PackEnd | display/composer/command_pack/command_data_unpacker.h:115-122 | the closing command must be the last word |
| CommandUnpack.CommandDataUnpacker.ProcessUnpackCmd | display/composer/v1_0/display_command/display_cmd_requester.h:826-873 | the first requester's loop sees the sections once, in order, up to the first unknown command or the first handler that reads past the pack or refuses what it read |
| CommandUnpack.CommandDataUnpacker.DoReplyResults | display/composer/v1_0/display_command/display_cmd_requester.h:875-901 | a reply is taken exactly when its opening and closing commands are the expected ones, every command is known and every handler reads inside the pack and is content |
| CommandUnpack.CommandDataUnpacker.ProcessUnpackCmdV12 | display/composer/v1_2/display_command/display_cmd_requester.h:196-229 | own sections up to the first other one, which is skipped, and then the rest as the first requester's loop takes it |
| CommandUnpack.CommandDataUnpacker.DoReplyResultsV12 | display/composer/v1_2/display_command/display_cmd_requester.h:231-265 | when a reply is taken, exactly, and that all its sections are seen exactly when all their commands are the loop's own |
| CommandUnpack.SeenAll | display/composer/v1_2/display_command/display_cmd_requester.h:196-229 | the sections seen are the whole reply exactly when all commands are the loop's own, and one fewer otherwise |
| CommandUnpack.LoneSectionSkipped | display/composer/v1_2/display_command/display_cmd_requester.h:219-223 | a reply of one section of the first requester's is taken whatever that section holds |
| CommandUnpack.OwnSectionRefused | display/composer/v1_2/display_command/display_cmd_requester.h:219-223 | the later requester's own section behind one of the first requester's is refused although all reads stay inside the pack |
| CommandUnpack.ErrorsSkipped | display/composer/v1_2/display_command/display_cmd_requester.h:219-223 | a section of errors right behind a commit is never looked at |
| CommandUnpack.CommandDataUnpacker.ServeSections | display/composer/v1_0/display_command/display_cmd_responser.h:189-196 | the responder's handlers report nothing, so its loop sees every section whatever they read, up to the first unknown command |
| CommandUnpack.CommandDataUnpacker.ServeRequest | display/composer/v1_0/display_command/display_cmd_responser.h:180-198 | a request is served exactly when it opens as expected and all its commands are known |
| CommandBytes.RunLoop | display/composer/command_pack/command_data_unpacker.h:90-113 | on any bytes: which sections are visited, in which order, what their handlers get, and how it ends |
| CommandBytes.EndsIff | display/composer/command_pack/command_data_unpacker.h:106-113 | a loop over any bytes ends exactly if it gets to no section of length 0 with a known command whose handlers let it go on |
| CommandBytes.ServeBytes | display/composer/v1_0/display_command/display_cmd_responser.h:180-198 | a request of any bytes is served exactly if it opens as expected and the loop gets past its end |
| CommandBytes.ReplyBytes | display/composer/v1_0/display_command/display_cmd_requester.h:875-901 | a reply of any bytes is taken exactly if it opens and closes as expected and the loop ends right before the closing command |
| CommandBytes.PackEnds | display/composer/command_pack/command_data_unpacker.h:106-113 | in a well-formed pack every loop ends, past the last section exactly if all of them pass |
| CommandBytes.NeverEnds | display/composer/v1_0/display_command/display_cmd_responser.h:189-196 | five words on which the responder's loop does not end |
| CommandUnpack.DecidedOnce | display/composer/v1_0/display_command/display_cmd_requester.h:131-172 | which sections go through, and how large the buffer is before and after each, is determined by the jobs and the first size |
| CommandUnpack.PackJobs | display/composer/v1_0/display_command/display_cmd_requester.h:131-172 | the sections that went through, and the buffer's size, after any list of jobs |
| CommandUnpack.Session | display/composer/v1_0/display_command/display_cmd_responser.h:160-200 | a session succeeds exactly when the sections that went through leave room for the closing command and are all known; the responder then gets exactly these |
| BufferHandle.SeqIds.GenerateHdifdSeqid | display/composer/v1_0/display_command/display_cmd_utils.h:115-125 | the next number, the overflow of the largest one taken to wrap |
| BufferHandle.MatchHdiFd | display/composer/v1_0/display_command/display_cmd_utils.h:127-140 | found exactly when some entry with this number is not lost, and then the descriptor of the first such entry, whatever stands before it |
| BufferHandle.LostPassedOver | display/composer/v1_0/display_command/display_cmd_utils.h:129-136 | entries that are lost, or have another number, are passed over |
| BufferHandle.OthersLost | display/composer/v1_0/display_command/display_cmd_utils.h:127-140 | where numbers are distinct, descriptors whose own entries arrived are found whatever else is lost |
| BufferHandle.FindsItself | display/composer/v1_0/display_command/display_cmd_utils.h:127-140 | in a table every number leads to its own entry |
| BufferHandle.TableGrows | display/composer/v1_0/display_command/display_cmd_utils.h:115-125 | numbers stay distinct and positive while the counter does not pass its maximum |
| BufferHandle.FileDescriptorPack | display/composer/v1_0/display_command/display_cmd_utils.h:168-198 | a descriptor's number in the pack and its entry in the table, or a failure, exactly if the buffer cannot grow to it |
| BufferHandle.BufferHandlePack | display/composer/v1_0/display_command/display_cmd_utils.h:200-245 | the bytes and table entries of a handle, or of a missing one, or a failure, exactly if the buffer cannot grow to them |
| BufferHandle.FileDescriptorUnpack | display/composer/v1_0/display_command/display_cmd_utils.h:269-287 | what every word in the pack unpacks to |
| BufferHandle.UnpackBasicInfo | display/composer/v1_0/display_command/display_cmd_utils.h:289-309 | the fixed fields are read, exactly when they are all there and the descriptor is found |
| BufferHandle.UnpackExtraInfo | display/composer/v1_0/display_command/display_cmd_utils.h:311-332 | when the reserve array is taken for good, on every input, and what it then holds |
| BufferHandle.LossNoticedIff | display/composer/v1_0/display_command/display_cmd_utils.h:311-332 | whatever the table lost, a packed handle is accepted exactly when its main descriptor arrived and, if a reserve one did not, it has extra integers; what the array holds and where reading goes on then |
| BufferHandle.LossHidden | display/composer/v1_0/display_command/display_cmd_utils.h:311-364 | a whole handle that is accepted although its extra descriptor is lost, with its integer in the descriptor's place |
| BufferHandle.BufferHandleUnpack | display/composer/v1_0/display_command/display_cmd_utils.h:334-364 | when a handle is unpacked, what it holds and where the next value starts, on every input |
| BufferHandle.PackedUnpacks | display/composer/v1_0/display_command/display_cmd_utils.h:200-364 | a packed handle whose own descriptors arrived unpacks to itself, with negative descriptors as -1, whatever else the table lost |
| CommandWire.HandleWire | display/composer/v1_0/display_command/display_cmd_utils.h:200-245 | the words of a handle in the pack, in order |
| CommandWire.NumbersCount | display/composer/v1_0/display_command/display_cmd_utils.h:168-198 | descriptors are numbered in order from the counter on, negative ones stand for themselves, and each number has its entry |
| HandleSession.PackSectionOf | display/composer/v1_0/display_command/display_cmd_requester.h:131-172 | a section of handles is packed as a whole or not at all, exactly when the buffer admits it |
| HandleSession.HandlesThroughPack | display/composer/v1_0/display_command/display_cmd_utils.h:200-364 | any number of handles through a pack, exactly when the buffer takes it: all fields, extra integers and the very descriptors sent, negative ones as -1 |

## Left out

- MetadataString.DecodeFromString: images whose regions do not stand one behind the other are told apart but not restored, because table and arena are separate here.
- MetadataVec.ConvertVecToMetadata: a tag table that records a wider type than the vector carries ends the rebuilding with an outcome of its own, without the bytes read past the payload.
- CommandUnpack.CommandDataUnpacker.DoReplyResults: how many words each section's handler asks for, and whether it is content with them, is given beforehand instead of computed from them.
- CommandBytes.RunLoop: called where the loop ends, which `EndsIff` makes exact; the later requester's nested loops are modelled on well-formed packs only.
- ByteCodeWrite.ByteCodeWriter.Output: stated for files of less than 2 GiB, the range of the header's total; a reference keeps its target in its own value instead of on the term above it.
- BufferHandle.MatchHdiFd: a descriptor is moved out of its entry, so that the same number read twice would give it once only; while the counter does not pass its maximum no pack holds a number twice (`TableGrows`).
- BufferHandle.BufferHandleUnpack: a failing allocation of the handle, and what unused slots of its reserve array hold.
- CommandPack.CommandDataPacker.Write: called with the cursor in or right behind the buffer, as callers do that roll back after a failed section.
- HcsRoundTrip.PrintedByteCodeRecompiles: for trees without references, the parsed tree compiled as a value; `HcsChain.DecompileAndRecompile` has the objects.
- HcsChain.DecompileAndRecompile: merging one file into nothing, the check for a `module` attribute, and the walks that expand references and inheritance, which a tree without them passes unchanged.
- HcsPrintWalk.DecompileGen.OutPut: node references, whose paths the printer gets wrong for nested nodes.
- TreeMerge.Copy: on values only; merging is on linked objects in `MergeHeap`.
- AstHeap.AstObject.AddChild: for an object without peers, as the callers modelled here have it; what AddChild does with a chain of peers is not modelled.
- Decompile.FileReader.RebuildNode: the object of a reference waits for its target; sizes and offsets are kept in the tree that was read, not in the objects.
- Decompile.FileReader.GetString: a string cut off by the end of an unaligned file is refused here; in the source the node around it refuses it, since after the end no read succeeds and the position never reaches the node's end.
- HcsParser.Parser.ParseNode: line numbers and messages are left out; a number without digits reads as 0; the object of a reference waits for its target.
- HcsLexer.Lexer.constructor: the whole source in the lexer's one buffer of 1 MiB.
- Overwriting copies and moves, inheritance and reference expansion, and the checks that go with them.
- Vendor tags, the tag tables themselves (a function parameter here), item dumps and the codecs over parcels.
- Allocation failure, duplicating a descriptor, mutexes, logging, file access and the transport between processes.
- The text, macro and startup generators, hexdump output and command-line options.
- Device, layer and buffer caches and the individual display commands on top of the packs.
