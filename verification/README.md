# A verified model of the TON client stack

The repository talks to the TON network: it compiles TL-B schemas to cell codecs, speaks ADNL over TCP, encodes
and decodes TL messages, parses TL schemas, reads blocks and account histories as streams, follows the list of
lite servers and routes requests to those that hold a block. This project models the parts of it that compute, as
functions where the source is made of expressions and as classes and loops where it updates things in place, and
proves what each of them is for.

| file | what it models |
|---|---|
| `Tags`, `TagDispatch`, `TagTree` | tag strings, the trie of variant tags and the dispatcher compiled from it |
| `CellCodec`, `CellRoundTrip`, `Derive` | generated readers and writers of cells, with `^[ ]` child blocks, for sums and records |
| `BlockStreams` | the paged streams of a block and their two-ended merges |
| `AccountRange`, `AccountWindows`, `BlockBounds` | an account's ordered range, its concurrent split, and limits given as blocks |
| `PacketCodec` | the ADNL packet codec over a stream cipher |
| `TlSerde`, `TlStreams`, `TlStruct` | TL byte strings, vectors, boxed values and generated records |
| `TlText`, `TlGrammar`, `TlPrinter`, `TlRoundTrip` | the TL schema parser and the printed constructor form |
| `Numerals`, `Base64`, `Crc16`, `Address` | smart-contract addresses |
| `Discovery`, `ShardPrefix`, `Registry`, `CatchUp`, `Routing` | from server lists to the services a request may go to |
| `Correlation` | the actor that matches answers to queries |
| `Counterexamples` | concrete inputs for the properties that hold under a condition only |
| `Prelude`, `Bits`, `Bytes` | shared vocabulary |

Things outside the code are parameters. A server is a faithful paged view of a list or a chain; a scheduler is any
interleaving; AES-CTR (section 6.5 of NIST SP 800-38A) is XOR with an abstract key stream and SHA-256 an abstract
function; field types of cells and TL values are abstract codecs. Parsers of text work on positions in one string,
and a result is the position reached. Machine integers are unbounded except where their width matters, and there the
width is written out; panics are explicit results.

Where the code does less than one would expect, the model follows the code, and the lemma states exactly when the
property holds: see the rows that say "exactly when".

`dafny verify dfyconfig.toml` checks the whole project.

## Model

| member | source | states |
|---|---|---|
| `Tags.ParseStr` | crates/toner-tlb-macros/src/common.rs:69-116 | a tag string is read as its bits, or refused, by the rules for `$`, `#`, `0b`, `0x` and `_`, the accepted leading plus and the overflow beyond sixteen digits included |
| `Tags.UnpadExact` | crates/toner-tlb-macros/src/common.rs:106-115 | dropping trailing zeros and one 1 gives x exactly when the bits are x, a 1 and zeros |
| `Tags.UnderscoreTagRoundTrip` | crates/toner-tlb-macros/src/common.rs:69-116 | every bit string, completed by a 1 and zeros to nibbles and marked with `_`, parses back to itself |
| `Tags.HexTagBits` | crates/toner-tlb-macros/src/common.rs:69-116 | without `_` each of at most sixteen hexadecimal digits, of either case, contributes its four bits, most significant first; more digits are refused |
| `Tags.UnderscoreTagBits` | crates/toner-tlb-macros/src/common.rs:69-116 | with `_` the tag is the bits of its digits, of either case, without trailing zeros and one 1 |
| `Tags.Fold` | crates/toner-tlb-macros/src/common.rs:131-133 | folding bits into a word of w bits gives the value of the last w of them |
| `Tags.AsU64` | crates/toner-tlb-macros/src/common.rs:131-133 | `as_u64` is the value of the tag bits, of the last 64 when there are more |
| `TagTrees.TagTree.Insert` | crates/toner-tlb-macros/src/reader.rs:202-211 | the node tree updated in place is the trie with the tag inserted, and stays a tree of separately owned nodes |
| `TagTrees.TagTree.InsertInto` | crates/toner-tlb-macros/src/reader.rs:202-211 | inserting below one branch changes that branch as the trie does and leaves the other alone |
| `TagTrees.TagTree.MinLeafDepth` | crates/toner-tlb-macros/src/reader.rs:213-220 | the object tree and the trie have the same depth to the closest leaf |
| `TagTrees.FromVariants` | crates/toner-tlb-macros/src/reader.rs:384-387 | inserting every tag in declaration order builds the trie of the tags |
| `TagTrees.Build` | crates/toner-tlb-macros/src/reader.rs:243-276 | the dispatcher generated from the node tree is the code generated from the trie, or the same error |
| `TagTrees.CollectArms` | crates/toner-tlb-macros/src/reader.rs:278-306 | the arms pushed while descending are those of the trie, in order, after the ones collected before |
| `TagDispatch.FromTagsLookup` | crates/toner-tlb-macros/src/reader.rs:202-211 | the trie holds exactly the tags, each leading to the last variant declared with it |
| `TagDispatch.TagsPrefixFree` | crates/toner-tlb-macros/src/reader.rs:193-233 | no leaf of the trie has children exactly when no tag properly extends another |
| `TagDispatch.ArmOfPath` | crates/toner-tlb-macros/src/reader.rs:278-306 | the match arm for a bit pattern exists exactly when the pattern leads to a node, and holds that node's code |
| `TagDispatch.RunIsWalk` | crates/toner-tlb-macros/src/reader.rs:243-306 | the generated multi-bit reads with match arms behave as a bit-by-bit walk of the trie, on every stream |
| `TagDispatch.DispatchCorrect` | crates/toner-tlb-macros/src/reader.rs:243-306 | whenever generation succeeds, variant i with remainder t is selected exactly when the stream is the tag of i followed by t and no later variant repeats the tag |
| `TagDispatch.PrefixedTagsNeverGenerate` | crates/toner-tlb-macros/src/reader.rs:243-276 | when one tag properly extends another the recursion succeeds at no stack depth |
| `TagDispatch.PrefixFreeTagsGenerate` | crates/toner-tlb-macros/src/reader.rs:243-306 | for prefix-free tags the recursion returns on a stack as deep as the trie, and succeeds for tags of at most 32 bits |
| `CellCodec.GenReader` | crates/toner-tlb-macros/src/reader.rs:68-129 | the loop over the fields emits the reading plan, or the marker error |
| `CellCodec.GenWriter` | crates/toner-tlb-macros/src/writer.rs:101-164 | the loop over the fields emits the writing plan, or the marker error |
| `CellCodec.SameMarkersAccepted` | crates/toner-tlb-macros/src/reader.rs:68-129 | reader and writer accept exactly the marker sequences (none, both, start none* end)* and report the same fault otherwise |
| `CellRoundTrip.ReadsFetch` | crates/toner-tlb-macros/src/reader.rs:68-129 | executing the generated reading statements fetches field by field, entering the child cell at block start |
| `CellRoundTrip.WritesStore` | crates/toner-tlb-macros/src/writer.rs:101-164 | executing the generated writing statements stores field by field, attaching the child cell at block end |
| `CellRoundTrip.ReadInvertsWrite` | crates/toner-tlb-macros/src/writer.rs:101-205 | for every accepted field list, reading yields the values and leaves t exactly when the cell is what writing the values builds followed by t |
| `CellRoundTrip.WrittenReadsBack` | crates/toner-tlb-macros/src/writer.rs:101-205 | what was written is read back with trailing bits and references untouched, if only each field type reads back what it writes |
| `CellRoundTrip.ReadWasWritten` | crates/toner-tlb-macros/src/reader.rs:68-129 | what was read is what the writer builds, if only each field type accepts nothing but what it writes |
| `Derive.CheckTagExact` | crates/toner-tlb-macros/src/reader.rs:151-165 | the tag check passes and leaves t exactly when the cell is the stored tag followed by t |
| `Derive.ReaderGeneratesIff` | crates/toner-tlb-macros/src/reader.rs:367-402 | once the writer of a sum generates, the reader does exactly when no tag properly extends another |
| `Derive.EnumWrittenReadsBack` | crates/toner-tlb-macros/src/writer.rs:289-329 | what was written as variant i is read back as variant i with trailing bits and references untouched, exactly when no later variant repeats its tag; its fields need only be read back after writing, those of other variants do not matter |
| `Derive.EnumReadWasWritten` | crates/toner-tlb-macros/src/reader.rs:367-402 | what is read as variant i is that variant written, if its field types accept nothing but what they write |
| `Derive.EnumRoundTrip` | crates/toner-tlb-macros/src/writer.rs:259-329 | both together: reading yields variant i, its values and t exactly when the input is that variant written, followed by t, and no later variant repeats its tag |
| `Derive.StructGeneratesIff` | crates/toner-tlb-macros/src/writer.rs:228-257 | reader and writer of a record are generated together, exactly for balanced markers and a tag of at most 32 bits |
| `Derive.StructWrittenReadsBack` | crates/toner-tlb-macros/src/writer.rs:228-257 | a written record is read back with trailing bits and references untouched, if only each field type reads back what it writes |
| `Derive.StructReadWasWritten` | crates/toner-tlb-macros/src/reader.rs:330-365 | a record that is read was written, if its field types accept nothing but what they write |
| `Derive.StructRoundTrip` | crates/toner-tlb-macros/src/writer.rs:228-257 | both together, for a record with or without a tag |
| `BlockStreams.PagedStreamIsOrder` | crates/ton-client/src/client/client_ext.rs:54-93 | for every page split the stream lists the block in order exactly when no empty page is marked incomplete after the first transaction |
| `BlockStreams.ExchangeEnds` | crates/ton-client/src/client/client_ext.rs:54-93 | with non-empty pages there is at most one page per transaction |
| `BlockStreams.MergeTxs` | crates/ton-client/src/client/client_ext.rs:158-184 | for every schedule the merge of a sequence of distinct transactions with its reverse yields each exactly once, and only fails if a stream does |
| `BlockStreams.TxStreamUnordered` | crates/ton-client/src/client/client_ext.rs:158-184 | for every page split of both directions and every schedule the unordered stream yields exactly the transactions of the block, each once |
| `BlockStreams.MergeAccounts` | crates/ton-client/src/client/client_ext.rs:186-217 | for every schedule the account merge yields each account exactly once when the transactions of an account are contiguous |
| `BlockStreams.AccountStream` | crates/ton-client/src/client/client_ext.rs:186-217 | the same from the pages of both directions |
| `AccountRange.PagedStream` | crates/ton-client/src/client/client_ext.rs:219-279 | however the pages are cut, the stream is the account's history from the bound back |
| `AccountRange.DropStart` | crates/ton-client/src/client/client_ext.rs:405-451 | skipping stops at the first transaction that is not the excluded start |
| `AccountRange.YieldUntil` | crates/ton-client/src/client/client_ext.rs:405-451 | yielding stops with an included end and before an excluded one; it ends in the error of the stream exactly when the stream breaks off before the end is met |
| `AccountRange.TxRange` | crates/ton-client/src/client/client_ext.rs:405-451 | run over any pages, the method yields the ordered range of the chain; when a request fails it has yielded the beginning of the range, and all of it if the end was met before |
| `AccountRange.RangeExact` | crates/ton-client/src/client/client_ext.rs:405-451 | the ordered range is the stretch of the chain between the bounds, newest first, for every kind of bound |
| `AccountRange.RangeBetween` | crates/ton-client/src/client/client_ext.rs:405-451 | the same from the positions of both bounds, also when the end is newer than the start or missing |
| `AccountWindows.InterleavingKeepsAll` | crates/ton-client/src/client/client_ext.rs:399-402 | every interleaving of the window streams holds the same transactions, with multiplicity |
| `AccountWindows.WindowRange` | crates/ton-client/src/client/client_ext.rs:377-397 | each window is the stretch of the chain between two neighbouring sample points |
| `AccountWindows.WindowsCoverRange` | crates/ton-client/src/client/client_ext.rs:343-402 | for strictly climbing sample points the windows together hold exactly the ordered range |
| `AccountWindows.ChunkArithmetic` | crates/ton-client/src/client/client_ext.rs:343-344 | the number of chunks is zero exactly when the ends are less than 28800 blocks apart, and otherwise all samples fall between the ends |
| `AccountWindows.SplitYieldsRange` | crates/ton-client/src/client/client_ext.rs:291-403 | for all combinations of bounds the split panics exactly when the ends are less than 28800 blocks apart; otherwise every interleaving has exactly the transactions of the ordered range |
| `BlockBounds.LimitErrors` | crates/ton-grpc/src/helpers.rs:50-133 | a block limit is refused exactly when the account had no transaction by then |
| `BlockBounds.BlockRangeExact` | crates/ton-grpc/src/helpers.rs:40-133 | for all four kinds of limits, the range lists exactly the transactions of the admitted blocks if and only if none lies in a gap between a newest block below the oldest one |
| `BlockBounds.LimitRangeExact` | crates/ton-grpc/src/helpers.rs:40-133 | for every combination of no limit, block limits and transaction limits, the range lists exactly what both limits admit if and only if the start limit admits nothing or admits the transaction the end stops at; without a limit on one side it always does |
| `PacketCodec.PacketCodec.FromBytes` | crates/adnl-tcp/src/codec.rs:98-122 | the two key streams are cut from the 160 bytes, and the role decides which is for sending |
| `PacketCodec.PacketCodec.Encode` | crates/adnl-tcp/src/codec.rs:19-33 | the encrypted frame is appended, the key stream moves by its length, and bytes already in the buffer stay as they are |
| `PacketCodec.PacketCodec.Decode` | crates/adnl-tcp/src/codec.rs:40-82 | one call changes buffer, key-stream position and pending length as the decoding step does |
| `PacketCodec.PacketCodec.DecodeBody` | crates/adnl-tcp/src/codec.rs:58-82 | the body is decrypted once, checked against its digest and removed from the buffer |
| `PacketCodec.DrainBuffer` | crates/adnl-tcp/src/codec.rs:40-82 | calling decode until it needs more yields all packets the buffer holds |
| `PacketCodec.EncodedStream` | crates/adnl-tcp/src/codec.rs:19-33 | a further frame continues the cipher stream where the frames before it ended |
| `PacketCodec.AnyFragmentation` | crates/adnl-tcp/src/codec.rs:40-82 | for every fragmentation of any prefix of the stream the decoder has yielded exactly the packets wholly contained, in order, without failing, and its state depends on the byte count alone |
| `PacketCodec.AllDelivered` | crates/adnl-tcp/src/codec.rs:19-82 | when all has arrived every packet is out, nothing is buffered and the decoder stands at the end of the wire |
| `PacketCodec.EncodeAll` | crates/adnl-tcp/src/codec.rs:19-33 | successive encode calls append the cipher of all frames and move the sender by their length |
| `PacketCodec.ReceiveChunks` | crates/adnl-tcp/src/codec.rs:40-82 | draining after every chunk yields what receiving the chunks yields |
| `PacketCodec.Session` | crates/adnl-tcp/src/codec.rs:19-122 | a client and a server from one secret, in either direction: whatever is sent, in whatever chunks it arrives, the peer yields exactly that, and both stand at the same position of the same key stream |
| `PacketCodec.PacketRoundTripIff` | crates/adnl-tcp/src/codec.rs:19-82 | one packet survives exactly when its checksum is the digest and its length plus 64 fits 32 bits |
| `TlStreams.Serializer.WriteConstructorNumber` | crates/adnl-tcp/src/serializer.rs:23-25 | four bytes, most significant first, are appended |
| `TlStreams.Serializer.WriteI31` | crates/adnl-tcp/src/serializer.rs:31-33 | the lower 31 bits are appended, least significant byte first |
| `TlStreams.Serializer.WriteBytes` | crates/adnl-tcp/src/serializer.rs:47-77 | length form, bytes and padding are appended |
| `TlStreams.Deserializer.ParseConstructorNumber` | crates/adnl-tcp/src/deserializer.rs:37-39 | four bytes are consumed as the number, or the read panics |
| `TlStreams.Deserializer.ParseI31` | crates/adnl-tcp/src/deserializer.rs:41-43 | four bytes are consumed and the top bit dropped, or the read panics |
| `TlStreams.Deserializer.ParseBytes` | crates/adnl-tcp/src/deserializer.rs:60-87 | both length forms and the padding are consumed as the pure parser does |
| `TlStreams.SerializeVector` | crates/adnl-tcp/src/types.rs:89-99 | the loop appends the count and the elements |
| `TlStreams.DeserializeVector` | crates/adnl-tcp/src/types.rs:101-115 | the loop reads the count and that many elements, and stops at the first failure |
| `TlSerde.BytesAligned` | crates/adnl-tcp/src/serializer.rs:47-77 | an encoded byte string fills whole groups of four bytes |
| `TlSerde.BytesRoundTripIff` | crates/adnl-tcp/src/deserializer.rs:60-87 | a byte string is read back, with nothing of the rest touched, exactly when it is shorter than 2^24 |
| `TlSerde.I31RoundTrip` | crates/adnl-tcp/src/deserializer.rs:41-43 | reading back gives the lower 31 bits |
| `TlSerde.Be32RoundTrip` | crates/adnl-tcp/src/serializer.rs:23-25 | the constructor number is read back |
| `TlSerde.VectorRoundTripIff` | crates/adnl-tcp/src/types.rs:89-115 | a vector is read back exactly when it has fewer than 2^31 elements |
| `TlSerde.BoxedRoundTripIff` | crates/ton-liteserver-client/build.rs:165-204 | a boxed variant is read back exactly when no earlier variant has its constructor number |
| `TlSerde.WholeMessage` | crates/adnl-tcp/src/deserializer.rs:96-108 | the bytes of a boxed value give it back, and any surplus byte is refused |
| `TlSerde.ResultAttribution` | crates/adnl-tcp/src/types.rs:117-148 | whatever the input, an accepted message is attributed to the type its leading number belongs to, never to the other |
| `TlSerde.ResultOkIff` | crates/adnl-tcp/src/types.rs:117-148 | an answer is read back exactly when no earlier constructor of T has its number, whatever E is |
| `TlSerde.ResultErrIff` | crates/adnl-tcp/src/types.rs:117-148 | an error is read back exactly when neither T nor an earlier constructor of E has its number; with a shared number it is lost even where T gives up on a number inside |
| `TlSerde.ResultRoundTrip` | crates/adnl-tcp/src/types.rs:117-148 | with numbers of T and E apart, each side is read back as itself |
| `TlStruct.CompleteFlags` | crates/ton-liteserver-client/build.rs:281-334 | the definitions leave in each flag word the caller's bits and those of all present fields |
| `TlStruct.WordHas` | crates/ton-liteserver-client/build.rs:314-325 | a bit of the word that goes out is set exactly when the caller set it or a present field stands for it |
| `TlStruct.Serialize` | crates/ton-liteserver-client/build.rs:281-387 | the generated body appends the fields in order, flag words completed |
| `TlStruct.SerializeField` | crates/ton-liteserver-client/build.rs:336-387 | one field is appended, an absent one as nothing |
| `TlStruct.Deserialize` | crates/ton-liteserver-client/build.rs:389-429 | the generated body reads field by field, optional ones as the flag words read before ask for |
| `TlStruct.DecodedAsAsked` | crates/ton-liteserver-client/build.rs:412-421 | in every decoded record an optional field is present exactly when the decoded flags have its bit |
| `TlStruct.StructRoundTripIff` | crates/ton-liteserver-client/build.rs:281-429 | decoding gives the fields with completed 31-bit flags and leaves the rest, exactly when each optional field is present if and only if its bit, at most bit 30, is set in the completed flags |
| `TlGrammar.SubexprIsTerm` | crates/tl-parser/src/lib.rs:564-580 | the sum alternative of a subexpression never applies: parsing a subexpression is parsing a term |
| `TlGrammar.Parse` | crates/tl-parser/src/lib.rs:253-307 | the outer loop ends on every input, every round getting further or bailing out, with the list of all rounds |
| `TlText.SkipBlank` | crates/tl-parser/src/lib.rs:345-355 | one blank before a word is all that is skipped |
| `TlText.GenericShift` | crates/tl-parser/src/lib.rs:591-607 | a type with arguments is recognised alike wherever it stands, if a blank or semicolon follows |
| `TlText.NumberBack` | crates/tl-parser/src/lib.rs:542-562 | a printed bit number is read back |
| `TlPrinter.TermBack` | crates/tl-parser/src/lib.rs:591-611 | a type name or a type with arguments is read as one term |
| `TlPrinter.NoCondition` | crates/tl-parser/src/lib.rs:546-562 | a type name is never taken for a condition, nor does it make the parse fail |
| `TlPrinter.ConditionBack` | crates/tl-parser/src/lib.rs:89-96 | a printed condition is read back |
| `TlPrinter.FieldBack` | crates/tl-parser/src/lib.rs:231-238 | a printed field, named and plain, is read back without its exclamation mark |
| `TlPrinter.FieldsBack` | crates/tl-parser/src/lib.rs:464-470 | a list of printed fields is read back in full up to the equals sign |
| `TlPrinter.ResultBack` | crates/tl-parser/src/lib.rs:417-433 | a boxed result type with parameters is read back with its text |
| `TlRoundTrip.PrintCanonical` | crates/tl-parser/src/lib.rs:46-68 | the printed form does not show the number, the kind, exclamation marks, or which fields were optional |
| `TlRoundTrip.PrintedReadsBack` | crates/tl-parser/src/lib.rs:464-510 | a printed declaration is read, as a type or as a function, wherever it stands, as its canonical form |
| `TlRoundTrip.RoundTripIff` | crates/tl-parser/src/lib.rs:464-510 | a declaration is read back as it was exactly when it has no number, optional fields or exclamation marks and is of the kind read; what follows is not touched |
| `TlRoundTrip.FileReadsBack` | crates/tl-parser/src/lib.rs:253-307 | a whole file of printed declarations parses to their canonical forms, in order |
| `Crc16.FeedLinear` | crates/ton-address/src/lib.rs:11 | the checksum is linear in register and message |
| `Crc16.ResidueIff` | crates/ton-address/src/lib.rs:64-71 | a message carries its own checksum exactly when the whole divides by the polynomial |
| `Crc16.BurstDetected` | crates/ton-address/src/lib.rs:64-71 | two messages that differ only within 16 neighbouring bits never both divide |
| `Base64.UngroupGroups` | crates/ton-address/src/lib.rs:57-62 | splitting bits into groups and joining them again changes nothing |
| `Base64.GroupsUngroup` | crates/ton-address/src/lib.rs:57-62 | joining values into bits and splitting them again changes nothing |
| `Numerals.IntRoundTrip` | crates/ton-address/src/lib.rs:89 | every 32-bit workchain number is read back from its decimal form, which has no colon |
| `Numerals.HexRoundTrip` | crates/ton-address/src/lib.rs:92 | bytes are read back from their hexadecimal form |
| `Address.Display` | crates/ton-address/src/lib.rs:106-130 | the buffer filled step by step gives the printed form |
| `Address.FromStr` | crates/ton-address/src/lib.rs:51-104 | parsing in the source's order of checks gives the parsed address or none |
| `Address.FromFriendly` | crates/ton-address/src/lib.rs:55-85 | the branch for 48 characters gives the address or none as the parse does |
| `Address.RawRoundTrip` | crates/ton-address/src/lib.rs:84-100 | every raw address is read back as printed |
| `Address.FriendlyRoundTripIff` | crates/ton-address/src/lib.rs:54-130 | a user-friendly address is read back exactly when its workchain is -1 or 0 to 254 |
| `Address.PrintParsed` | crates/ton-address/src/lib.rs:54-130 | printing what was read gives the text back, in the URL-safe alphabet |
| `Address.AcceptedIff` | crates/ton-address/src/lib.rs:54-71 | 48 characters are an address exactly when all are digits and their bits divide by the polynomial |
| `Address.MistypedRejected` | crates/ton-address/src/lib.rs:57-71 | changing one digit, or two neighbouring ones, of an accepted text always makes it rejected |
| `Discovery.DiscoverActor.Send` | crates/ton-client/src/pool/discover.rs:108 | a change is sent unless the receiver has gone |
| `Discovery.DiscoverActor.SendRemovals` | crates/ton-client/src/pool/discover.rs:106-109 | in any order, the removals take exactly the servers gone out of the follower's map, unless the receiver goes away |
| `Discovery.DiscoverActor.SendInsertions` | crates/ton-client/src/pool/discover.rs:111-120 | in any order, the insertions bring exactly the new servers into it, unless the receiver goes away |
| `Discovery.DiscoverActor.Tick` | crates/ton-client/src/pool/discover.rs:102-122 | after a config the follower holds exactly its servers, also those that kept their id and moved; no server that stays is touched; only a receiver gone cuts this short |
| `Discovery.DiscoverActor.Run` | crates/ton-client/src/pool/discover.rs:87-126 | over every stream of configs and errors the actor fails exactly on an initial error or when the receiver has gone; otherwise whoever applied all changes holds the servers of the last good config |
| `Discovery.ApplySplit` | crates/ton-client/src/route/router.rs:54-70 | applying changes in batches is applying them all |
| `Discovery.Router.Update` | crates/ton-client/src/route/router.rs:54-70 | the ready changes are applied in order up to the first error |
| `Discovery.UpdateAll` | crates/ton-client/src/route/router.rs:54-70 | however often the router polls, it ends with all changes applied in order |
| `Discovery.Follow` | crates/ton-client/src/pool/discover.rs:87-126 | actor and router together: for every stream of configs and errors and every batching of the changes, the router ends with exactly the servers of the last good config, each at its address |
| `ShardPrefix.PrefixOfId` | crates/ton-client/src/route/shard_prefix.rs:9-13 | the id of a prefix decodes to the prefix |
| `ShardPrefix.IdOfPrefix` | crates/ton-client/src/route/shard_prefix.rs:9-13 | every id but zero is the id of its prefix, and zero alone panics |
| `ShardPrefix.SharedAddressIff` | crates/ton-client/src/route/shard_prefix.rs:15-17 | two shards match a common address exactly when one prefix extends the other |
| `ShardPrefix.SplitHalves` | crates/ton-client/src/route/shard_prefix.rs:9-17 | moving the sentinel down one bit splits the matched addresses into two disjoint halves |
| `ShardPrefix.IdentPrefixIff` | crates/ton-liteserver-client/src/tlb/shard_ident.rs:25-28 | an ident decodes to its first `shard_pfx_bits` bits exactly when nothing is set below the sentinel |
| `ShardPrefix.LookUpMatches` | crates/ton-client/src/route/request.rs:118-131 | the address built for a look-up matches its own shard, every shard above, and of the two halves only the right one |
| `Registry.ShardBounds.LeftReplace` | crates/ton-client/src/route/shard_bounds.rs:46-48 | the left header is replaced, the old one returned, the rest kept |
| `Registry.ShardBounds.RightReplace` | crates/ton-client/src/route/shard_bounds.rs:50-52 | the right header is replaced, the old one returned, the rest kept |
| `Registry.ShardBounds.EndReplace` | crates/ton-client/src/route/shard_bounds.rs:54-56 | the known end is replaced, the old one returned, the rest kept |
| `Registry.Registry.UpdateShardRegistry` | crates/ton-client/src/route/registry.rs:90-100 | the chain lists exactly the shards with bounds and the one named, each under its own chain |
| `Registry.Registry.Apply` | crates/ton-client/src/route/registry.rs:30-88 | each upsert changes the entry of one shard as specified, no other, and keeps both maps in agreement |
| `Registry.Registry.GetRightNext` | crates/ton-client/src/route/registry.rs:18-22 | the next right block of the entry, if there is one |
| `Registry.Registry.Contains` | crates/ton-client/src/route/registry.rs:102-126 | the answer holds exactly when some entry covers the block, for either criterion and any order of visiting shards; a panic needs a shard id of zero |
| `Registry.EdgeWithinEnd` | crates/ton-client/src/route/shard_bounds.rs:50-66 | over every run in which ends only grow and headers follow their announcement, no right edge passes its known end |
| `Registry.EdgeStep` | crates/ton-client/src/route/registry.rs:50-88 | one event on a shard extends its consecutive right headers or leaves them, with the edge at the last of them and not past the end |
| `Registry.RightEdgeHasNoGaps` | crates/ton-client/src/route/shard_bounds.rs:58-66 | over every run in which each right header is the one asked for, right edges advance one block at a time and never pass the end |
| `Registry.AvailableIsKnownIff` | crates/ton-client/src/route/shard_bounds.rs:68-81 | every available block of an entry is known exactly when the end is not behind the right edge |
| `Registry.AvailableIsKnown` | crates/ton-client/src/route/registry.rs:102-126 | after every such run what is available is known, for both criteria |
| `CatchUp.CaughtMoves` | crates/ton-client/src/route/discover/last_block.rs:151-168 | after n rounds the edge has moved over exactly n blocks, nothing else has changed, and the next round asks for the following block until the end is met |
| `CatchUp.RunRound` | crates/ton-client/src/route/discover/last_block.rs:153-167 | one round asks for the next block and moves the edge if it arrives |
| `CatchUp.Advance` | crates/ton-client/src/route/discover/last_block.rs:151-168 | the loop ends with the edge at the known end, or in front of the first block that is not served |
| `Routing.ChooseBlock` | crates/ton-client/src/route/mod.rs:58-87 | the loop with its captured flag computes the choice |
| `Routing.BlockChoiceExact` | crates/ton-client/src/route/mod.rs:58-87 | exactly the covering services are chosen, with multiplicity; not available exactly when none covers but some knows the block |
| `Routing.FirstGroup` | crates/ton-client/src/route/mod.rs:88-101 | the leading group of equal numbers is taken, unknown if there is none |
| `Routing.LatestExact` | crates/ton-client/src/route/mod.rs:88-101 | for every outcome of the unstable sort exactly the services at the greatest last block are chosen; unknown exactly when no service has one |
| `Routing.CallRefuses` | crates/ton-client/src/route/router.rs:100-117 | a request is refused as not available exactly when no service covers the block but some knows it, and as unknown exactly when none covers, knows, or has a last block |
| `Correlation.ClientActor.OnAnswer` | crates/ton-liteserver-client/src/client.rs:95-102 | an answer goes to the caller waiting on its id and ends the wait |
| `Correlation.ClientActor.Loop` | crates/ton-liteserver-client/src/client.rs:84-124 | the loop over events computes the run up to the stop |
| `Correlation.StrayAnswerIgnored` | crates/ton-liteserver-client/src/client.rs:99-101 | an unknown or repeated answer changes nothing |
| `Correlation.FateExact` | crates/ton-liteserver-client/src/client.rs:84-124 | over every run each caller waits, has been handed exactly one answer, or was displaced, as the first later event with its id decides |
| `Correlation.AtMostOneAnswer` | crates/ton-liteserver-client/src/client.rs:99-101 | over every run no caller is handed a second answer |
| `Correlation.FateMeans` | crates/ton-liteserver-client/src/client.rs:84-124 | a caller receives an answer exactly when it is the first event with the id of its query after the query |
| `Correlation.PendingIsUnanswered` | crates/ton-liteserver-client/src/client.rs:109-117 | with distinct ids the pending map holds exactly the queries sent and not answered since |
| `Correlation.NeverReplaced` | crates/ton-liteserver-client/src/client.rs:168-190 | with distinct ids no caller is displaced |
| `Counterexamples.ShortHistoryPanics` | crates/ton-client/src/client/client_ext.rs:343-344 | two transactions one block apart make the split divide by zero |
| `Counterexamples.ReversedLimitsOverrun` | crates/ton-grpc/src/helpers.rs:50-133 | with a newest block below the oldest the range yields a transaction outside |
| `Counterexamples.StalledPageRepeats` | crates/ton-client/src/client/client_ext.rs:54-93 | an empty page marked incomplete makes the stream list a transaction twice |
| `Counterexamples.RepeatedTagShadows` | crates/toner-tlb-macros/src/reader.rs:202-211 | of two variants with one tag the dispatcher produces the second, whatever follows the tag |
| `Counterexamples.Workchain255Lost` | crates/ton-address/src/lib.rs:106-130 | a user-friendly address on workchain 255 comes back on workchain -1 |
| `Counterexamples.FlagWithoutField` | crates/ton-liteserver-client/build.rs:281-429 | a record with a flag set for an absent field is not read back |
| `Counterexamples.SharedNumberMisread` | crates/adnl-tcp/src/types.rs:138-139 | an error whose number T shares is read as an answer |
| `Counterexamples.NestedNumberFallsThrough` | crates/adnl-tcp/src/types.rs:140-142 | an answer with an unexpected number inside is read as an error of the shared number |
| `Counterexamples.NumberForgotten` | crates/tl-parser/src/lib.rs:46-68 | a declaration with an explicit number is not read back as it was |

## Left out

- Ed25519 and X25519, the handshake, AES and SHA-256 themselves, and the Tokio plumbing around the codec.
- `ton-emulator`, `tonlibjson-sys`, `tonlibjson-client`, `tvm-grpc`: foreign calls and JSON.
- The binary search for the first block: one loop over a monotone test. Reconnection, retries and timeouts: they depend on the clock and the network alone.
- toner library internals and the derived `tlb` structures, which are instances of the modelled codecs.
- Attribute parsing, token streams and error texts of the derive macros.
- Load balancing between the services chosen, metrics, tracing, command line and gRPC message conversion.
- Cell size limits: a builder is taken to have room.
- Repetition fields, unnamed fields and parenthesised types are parsed and printed in the model, but only named plain fields are proved to be read back, because the printed form of the others is not meant to be re-read.
- TL records with a condition that names no bit: the generator stops on them.
- Registry.ContainsLt: the sum of logical times is not cut to 64 bits, so an overflow of the estimate past the right block is not modelled.
- Registry.Registry.Apply: one upsert is one step; the concurrent map's locking between the two maps is not modelled.
- Routing.LatestExact: the negation of the smallest 32-bit number, which the sort key would overflow on, is not modelled.
- Discovery.DiscoverActor.Run: server ids are taken to be unique within a config; with two addresses for one id the order of a hash set decides which one stays.
- Correlation.ClientActor.Loop: a malformed packet or a failed send panics in the source and counts as a stop here.
- CatchUp.Advance: the server answers with the block asked for or not at all; retries inside one request are not modelled.
- TagTrees.Build: is called on prefix-free trees only, because the recursion of the source does not return on others, see TagDispatch.PrefixedTagsNeverGenerate.
- AccountRange.TxRange: a start bound names a transaction of the account; the server's refusal of any other is a failed request.
- Crc16.Crc: the checksum is computed bit by bit from its definition; the table of the library is not modelled.
