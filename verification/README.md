# Verification of the Akave SDK's data path and upload protocol

The Akave SDK cuts a file into chunks, encrypts and erasure-codes each chunk into blocks, uploads the blocks,
and records the chunks so that a failed upload can be resumed. This project models that path in Dafny and
proves that each stage can be undone, that the in-place algorithms refine simple out-of-place formats, and
that the concurrent upload keeps its record consistent, never deadlocks, ends, and commits only complete files.

## Layout

| file | what it models |
|---|---|
| `Base.dfy`, `Pieces.dfy` | bytes, big-endian integers, Go outcomes (value, error, run-time panic), copying inside one buffer, cutting into pieces |
| `Aead.dfy` | authenticated encryption, known by its contract (NIST SP 800-38D, sections 7.1 and 7.2) |
| `StreamSizes.dfy`, `StreamFormat.dfy`, `StreamWire.dfy`, `StreamLength.dfy`, `StreamEnc.dfy` | the stream encryption format: size arithmetic, the format as a function, its bytes and every outcome of decryption in numbers, what its length field decides, and the in-place loops |
| `ErasureCode.dfy`, `ErasureOutcomes.dfy`, `ParityCode.dfy` | wrapping and Reed-Solomon as an opaque code, every byte and every outcome of it, and a concrete code |
| `Stripes.dfy`, `ChunkV2.dfy`, `ChunkV2Bytes.dfy`, `ChunkV2Padding.dfy` | stripes stored column-major, one chunk of the newer path, what its blocks hold where and every outcome of a download, and which chunks come back |
| `ProtoScan.dfy`, `ProtoWire.dfy`, `ChunkV1.dfy` | the Protocol Buffers scanners, the wire format they read byte by byte, and one chunk of the older path |
| `Memtree.dfy`, `MemtreeIndex.dfy` | the flat Merkle tree: building, extracting a proof, verifying, and what a proof says about its index |
| `FileReader.dfy`, `PaddedReader.dfy` | reading from streams that give as much as they like at a time |
| `UploadRecord.dfy`, `Pipeline*.dfy` | the resumable upload: its record, its transition system, what single steps change, where chunks are, the invariant, safety, which transaction belongs to which chunk and is waited for before it is uploaded, progress |
| `ConnectionPool.dfy` | the double-checked connection pool under any interleaving |
| `EndToEnd.dfy` | upload with failures and resumes, then download, on either path: the file comes back |

Operations that change a buffer or an object are methods on arrays and classes; each is proved equal to a
function of its old state, and the results are about those functions. Cryptography, Reed-Solomon and SHA-256
are parameters constrained only by a contract, and a small instance shows that the contracts of the cipher and
of the code can be met (`Aead.ToyIsValid`, `ErasureCode.RepetitionIsValid`, and `ParityCode.SumParityIsValid` for every
number of data shards). The upload is a transition system
in which every network or chain call, the scheduler, cancellation and the sizes returned by libraries are free
choices; its read buffer size is a parameter, so it stands for `uploadSingleFile` and for `Upload2`, which run the
same three goroutines. The fields `chunks`, `uploaded`, `created`, `batchOf`, `waited`, `base`, `listed` and `log` in
it are history that no step reads.

What is assumed of the Reed-Solomon library is that parity shards are a function of the data shards and as long as
they, that any codeword is restored from any k of its shards, and that restoring fills in missing shards and keeps the
others; of the cipher, that opening undoes sealing, and that the tag is 16 bytes long; of SHA-256, that it gives 32
bytes.

## Where the code and its documentation differ

The model follows the code.

- `MaxPlaintextSizeForTarget` is documented to give a plaintext whose ciphertext is exactly the target. For a
  target above 32768 whose remainder by 32768 is 16 no plaintext does; `StreamSizes.MaxFillsTargetIff` gives
  the exact condition and `StreamSizes.UnfillableTarget` an example.
- `ExtractDataRaw` is documented to need the original size, but ignores it (`ParityCode.OneByteComesBackAsTwo`).
  `ChunkV2Padding.ChunkRoundTripIff` states for which chunks that is harmless, `ChunkV2Padding.OneByteIsLost` gives one
  that does not come back, and `ChunkV2Padding.HarmlessAlwaysIff` says that all do exactly if the number of data
  shards divides 16.
- The stream format keeps 32 bits of the plaintext length, without a check; `StreamFormat.RoundTripIff` gives
  the exact bound.
- Some memtrees that can be built are rejected by `MemtreeProof`; `Memtree.SizeAcceptedIff` says which.
- `VerifyMerkleProof` takes any index; `MemtreeIndex.IndexBinds` says which node a full-depth proof binds at each.
- `unwrapData` stops with an out-of-range slice on four prefixes above 2^63; `ErasureCode.UnwrapPanicsIff`.

## Model

| member | source | states |
|---|---|---|
| Aead.ToyIsValid | private/encryption/encryption.go:102-112 | the assumptions made about a cipher derived from key and info (opening undoes sealing, 16 bytes of tag) are consistent |
| StreamSizes.BlockDataSizeIs | private/encryption/streamenc/streamenc.go:83-100 | for every plaintext size the blocks' data sizes are positive and are exactly the consecutive ranges the encryption loop reads |
| StreamSizes.LastDataInRange | private/encryption/streamenc/streamenc.go:71-100 | the block count is the one whose last block holds the end of the plaintext and is not empty |
| StreamSizes.CiphertextSizeBounds | private/encryption/streamenc/streamenc.go:116-136 | the ciphertext size is a multiple of 16, ends inside the last block, whose padding is less than 16 bytes, and the overhead is at least header and tag |
| StreamSizes.FitsIffAtMostMax | private/encryption/streamenc/streamenc.go:116-161 | Galois connection: for every plaintext size p and valid target t, p + Overhead(p) <= t iff p <= MaxPlaintextSizeForTarget(t) |
| StreamSizes.MaxFillsTargetIff | private/encryption/streamenc/streamenc.go:138-161 | the returned size fills the target exactly iff the target's last block has room for a byte; otherwise no plaintext of any size does |
| StreamSizes.UnfillableTarget | private/encryption/streamenc/streamenc.go:138-161 | the documented exact fit fails for 32784 |
| StreamSizes.TargetErrors | private/encryption/streamenc/streamenc.go:138-147 | exactly which targets are refused, and with which error |
| StreamFormat.NoncesDistinct | private/encryption/streamenc/streamenc.go:322-328 | blocks with different indexes below 2^32 have different nonces, also when the 32-bit addition wraps |
| StreamWire.NonceCounts | private/encryption/streamenc/streamenc.go:322-328 | block 0 has the initial nonce; every block keeps its first eight bytes, and the last four, read as a big-endian number, go up by one from block to block, modulo 2^32 |
| StreamFormat.SealedFromPosition | private/encryption/streamenc/streamenc.go:233-241 | in the format every sealed block starts at i*32768 (block 0 behind the header) and ends where the next starts; the total is the computed size |
| StreamWire.HeaderBytes | private/encryption/streamenc/streamenc.go:244-247 | the header byte by byte: 1, the nonce, the length modulo 2^32 in four bytes, the most significant first |
| StreamWire.CiphertextBytes | private/encryption/streamenc/streamenc.go:202-247 | every byte of a ciphertext, with all offsets as numbers: the header, and in block i the seal, under block i's nonce, of its part of the plaintext and zeros up to the next multiple of 16 in the last block |
| StreamFormat.ParseHeaderOfHeader | private/encryption/streamenc/streamenc.go:58-69 | parsing a written header gives version, nonce and the length modulo 2^32 |
| StreamFormat.OpenSealedBlock | private/encryption/streamenc/streamenc.go:257-282 | opening block i of a ciphertext gives exactly the plaintext bytes of block i, padding removed |
| StreamFormat.RoundTripIff | private/encryption/streamenc/streamenc.go:163-320 | for every key, info, nonce and non-empty plaintext, decrypting the ciphertext gives the plaintext iff it is shorter than 2^32 bytes |
| StreamWire.DecryptsIff | private/encryption/streamenc/streamenc.go:252-320 | exactly which byte strings decrypt to which plaintext: the header names version and length, and every block is in range, opens, and starts with its part |
| StreamWire.DecryptErrors | private/encryption/streamenc/streamenc.go:252-320 | exactly when each error is given; a failed authentication iff some block is rejected and all before it read |
| StreamLength.NamedLengthDecides | private/encryption/streamenc/streamenc.go:252-320 | what a genuine ciphertext decrypts to when its header names any other length: the beginning of plaintext and padding as far as the blocks open, beyond that an out-of-range slice, or a failed authentication when the last block is full |
| StreamEnc.SealStep | private/encryption/streamenc/streamenc.go:204-242 | sealing block i right to left overwrites no plaintext of blocks below i and no sealed block above it |
| StreamEnc.EncryptBlock | private/encryption/streamenc/streamenc.go:209-241 | one turn of the in-place loop, with the fixed temporary always large enough, seals exactly block i of the original plaintext |
| StreamEnc.EncryptBlocks | private/encryption/streamenc/streamenc.go:202-247 | the in-place loop and header write leave header, then the concatenated seals of the padded slices, then the untouched rest |
| StreamEnc.Encrypt | private/encryption/streamenc/streamenc.go:169-250 | every outcome, each error under its exact condition, with an unchanged buffer; on success the ciphertext, whose bytes `StreamWire.CiphertextBytes` gives, is written in place |
| StreamEnc.DecryptBlock | private/encryption/streamenc/streamenc.go:257-282 | refines the format's block opening in place, for every buffer, including too short headers and out-of-range sizes; bytes outside the block are never changed, a wrong header changes nothing, and a failed authentication keeps the header |
| StreamEnc.CompactStep | private/encryption/streamenc/streamenc.go:303-315 | moving a decrypted block left overwrites no block not yet decrypted |
| StreamEnc.DecryptAllBlocks | private/encryption/streamenc/streamenc.go:288-320 | on any bytes, gives the outcome of the format's decryption; on success plaintext at the start and zeros after it; when a block fails to authenticate, the plaintext of the blocks before it and the later blocks untouched; on any other error an unchanged buffer |
| StreamEnc.EncryptThenDecrypt | private/encryption/streamenc/streamenc.go:163-320 | the two in-place operations compose to the identity for 1 to 2^32 - 1 bytes in every buffer with room for the overhead |
| ErasureCode.WrapData | private/erasurecode/erasure_code.go:165-184 | the in-place and the allocating branch write the same bytes: length, data, magic suffix; which branch is taken, and what is left untouched |
| ErasureOutcomes.WrappedBytes | private/erasurecode/erasure_code.go:165-184 | what is written, byte by byte: the length in eight bytes, the most significant first, the data, DE AD BE EF |
| ErasureCode.UnwrapsIff | private/erasurecode/erasure_code.go:168-205 | for every buffer a Go slice can be, unwrapData succeeds with d iff the buffer is wrapData(d) followed by any tail |
| ErasureCode.UnwrapPanicsIff | private/erasurecode/erasure_code.go:186-205 | it indexes out of range iff the prefix is one of four values above 2^63, so never for a prefix below 2^63 |
| ErasureOutcomes.UnwrapFails | private/erasurecode/erasure_code.go:186-205 | exactly when a buffer is too short and when its suffix is missing |
| ErasureCode.RepetitionIsValid | private/erasurecode/erasure_code.go:36-46 | what is assumed of the Reed-Solomon coder is consistent for one data shard and any number of parity shards |
| ParityCode.SumParityIsValid | private/erasurecode/erasure_code.go:36-46 | what is assumed of the Reed-Solomon coder is met for every number of data shards up to 255, by one parity shard of column sums modulo 256 |
| ParityCode.OneByteComesBackAsTwo | private/erasurecode/erasure_code.go:121-158 | with two data shards, extracting one encoded byte under its exact size gives two bytes |
| ErasureCode.SplitShape | private/erasurecode/erasure_code.go:107-119 | splitting gives k equal shards of ceil(len/k) bytes which joined are the data and zeros |
| ErasureOutcomes.ShardBytes | private/erasurecode/erasure_code.go:107-119 | byte b of data shard i is byte i * size + b of the data, or zero past its end; the shards after those are their parity |
| ErasureOutcomes.NothingToEncode | private/erasurecode/erasure_code.go:107-111 | nothing can be encoded from no data |
| ErasureCode.RecoversCodeword | private/erasurecode/erasure_code.go:123-145 | with any at most m shards missing, verification and reconstruction restore exactly the encoded shards |
| ErasureCode.ExtractsRaw | private/erasurecode/erasure_code.go:107-158 | ExtractDataRaw after EncodeRaw with any at most m losses gives data and padding, whatever size it is given; it is the data iff k divides its length |
| ErasureCode.ExtractsEncoded | private/erasurecode/erasure_code.go:48-105 | ExtractData after Encode with any at most m losses gives the data, whatever padding was added |
| ErasureOutcomes.ExtractOutcomes | private/erasurecode/erasure_code.go:123-158 | every outcome on any shards, in terms of their sizes and the parity: wrong number, no data, two sizes, too few, parity that does not match, or the data shards joined |
| ErasureOutcomes.ExtractedIsCodeword | private/erasurecode/erasure_code.go:123-158 | whenever data is extracted, it is the data of a codeword that agrees with every shard given |
| ErasureCode.Encode | private/erasurecode/erasure_code.go:49-67 | returns the concatenated shards of the wrapped data; the caller's buffer holds the wrapped data if it has room, and is unchanged if not |
| ErasureCode.ExtractDataRaw | private/erasurecode/erasure_code.go:123-158 | every outcome of extraction on any shards; shards that are all there with a parity that is not theirs give "data is corrupted"; after a success the caller's slice is a codeword that has every shard given |
| ErasureCode.ExtractData | private/erasurecode/erasure_code.go:70-105 | every outcome of extraction and unwrapping on any shards; corrupted ones are an error here too |
| Stripes.ShardInColumn | sdk/sdk_ipc_upload_download2.go:383-388 | in the column-major layout, block i from the sum of the earlier shard sizes on holds shard i of stripe j |
| Stripes.CutsIntoColumns | sdk/sdk_ipc_upload_download2.go:377-390 | cutting the column-major data by the summed shard size gives exactly one block per column |
| Stripes.ReassemblesIff | sdk/sdk_ipc_upload_download2.go:366-540 | reading the blocks back by rows gives every stripe with its padding, and is the ciphertext iff k divides every stripe's length |
| Stripes.ShardSizesSum | sdk/sdk_ipc_upload_download2.go:515-540 | for every k the recomputed shard sizes sum to the block size used on upload: the offset ends exactly at each block's end |
| Stripes.HeaderInColumns | sdk/sdk_ipc_upload_download2.go:494-507 | for one stripe or many, the data blocks start with the first bytes of the ciphertext |
| ChunkV2Bytes.StoredBytes | sdk/sdk_ipc_upload_download2.go:350-390 | what every stored block holds where: shard i of the encoding of two MiB of the ciphertext after another, at offsets given as numbers, and nothing else |
| ChunkV2.Upload2ReadsFit | sdk/sdk_ipc_upload_download2.go:75-114 | a read of n bytes can be encrypted in the buffer of Upload2 iff n is at most its read size, so ErrBufferTooSmall never occurs |
| ChunkV2Bytes.Upload2Reads | sdk/sdk_ipc_upload_download2.go:75-82 | Upload2 reads 15992159 bytes at a time |
| ChunkV2.SizeRecovered | sdk/sdk_ipc_upload_download2.go:494-513 | the header found in the blocks gives back the ciphertext size |
| ChunkV2Bytes.SizeIsNamed | sdk/sdk_ipc_upload_download2.go:494-513 | on any blocks, the size a download works with is the length in the first 17 bytes of the data blocks, missing ones read as zero, and its overhead |
| ChunkV2Padding.ChunkRoundTripIff | sdk/sdk_ipc_upload_download2.go:350-552 | for every number of data shards a chunk, stored and read back, is the plaintext iff no padding gets into a block: k divides every stripe's length, or there is one stripe of full blocks; every other chunk fails to authenticate, given that the cipher rejects the first block with padding in it |
| ChunkV2Padding.HarmlessComesBack | sdk/sdk_ipc_upload_download2.go:350-552 | the positive half for every cipher and any number of stripes |
| ChunkV2Padding.BlocksInPlace | sdk/sdk_ipc_upload_download2.go:514-540 | in the reassembled ciphertext every block before the first padded one is where it was |
| ChunkV2Padding.HarmlessAlwaysIff | sdk/sdk_ipc_upload_download2.go:520-540 | padding is harmless in the chunks of all sizes iff k divides 16 |
| ChunkV2Padding.OneByteIsLost | sdk/sdk_ipc_upload_download2.go:350-552 | a chunk that does not come back: one byte with five data shards |
| ChunkV2.ChunkRoundTripFor16 | sdk/sdk_ipc_upload_download2.go:350-552 | so for every plaintext when k divides 16 |
| ChunkV2.DividesAlwaysIff | sdk/sdk_ipc_upload_download2.go:520-540 | k divides all stripes of all ciphertexts iff k divides 16 |
| ChunkV2.SplitStripes | private/erasurecode/stripes.go:9-18 | the loop cuts the data into consecutive pieces, none lost, the last possibly shorter |
| ChunkV2.LayOut | sdk/sdk_ipc_upload_download2.go:377-388 | the summing and appending loops give the column-major layout and its block size |
| ChunkV2.CreateChunkUpload2 | sdk/sdk_ipc_upload_download2.go:350-390 | every outcome, each error under its exact condition; on success the blocks of the encrypted chunk |
| ChunkV2.CollectHeader | sdk/sdk_ipc_upload_download2.go:500-507 | the loop that stops early collects the first 17 bytes of the blocks |
| ChunkV2.ReassembleStripes | sdk/sdk_ipc_upload_download2.go:514-540 | the loops with the running offset give every outcome of reassembly, including an out-of-range slice on malformed blocks |
| ChunkV2.DownloadChunkBlocksV2 | sdk/sdk_ipc_upload_download2.go:489-552 | every outcome of the download of a chunk from any blocks |
| ChunkV2Bytes.ReassembledIs | sdk/sdk_ipc_upload_download2.go:514-540 | on any blocks, reassembly gives the stripes' results one after another, each cut out at its own offset, up to the first that fails |
| ChunkV2Bytes.DownloadOutcomes | sdk/sdk_ipc_upload_download2.go:489-552 | every outcome in terms of the stripes: wrong number of blocks, the first stripe that fails, or what decryption gives |
| ChunkV2Bytes.CorruptionNoticed | sdk/sdk_ipc_upload_download2.go:514-540 | blocks whose shards of a stripe do not have their own parity are rejected as corrupted |
| ProtoScan.FirstWithIff | sdk/sdk.go:303-351 | what the scanners look for, by position: a field is found iff it has the number and the length-prefixed type and no earlier field does |
| ProtoWire.VarintIff | sdk/sdk.go:306-318 | exactly which byte strings start with which varint: groups of seven bits, at most ten bytes, the tenth at most 1 |
| ProtoWire.TagIff | sdk/sdk.go:306-310 | exactly which start with which tag: field numbers from 1 to 2^31 - 1, eight wire types |
| ProtoWire.LengthIff | sdk/sdk.go:312-318 | a length-prefixed value is there iff all its bytes are |
| ProtoWire.ValueIff | sdk/sdk.go:318-322 | how long the value of a skipped field is, for every wire type, and that the other two are malformed |
| ProtoWire.GroupEnds | sdk/sdk.go:318-322 | a skipped group ends at the end tag of its own number, and is malformed at another one's |
| ProtoWire.DepthLimited | sdk/sdk.go:318-322 | at the depth limit a nested group is malformed, whatever it holds |
| ProtoWire.ScanStops | sdk/sdk.go:303-351 | nothing is found behind a malformed field |
| ProtoScan.ConsumeDagPbData | sdk/sdk.go:301-325 | on any bytes, agrees with a full field-list decoder, nested groups included: the payload of the first length-prefixed field 1, failing iff it is absent or something before or in it is malformed |
| ProtoScan.ConsumeUnixFsData | sdk/sdk.go:327-351 | the same for field 2 |
| ProtoScan.VarintRoundTrip | sdk/sdk.go:306-321 | the varint of every 64-bit value is read back with its length, whatever follows |
| ProtoScan.FieldsRoundTrip | sdk/sdk.go:305-323 | the decoder reads back every list of encoded fields |
| ProtoScan.ScanFinds | sdk/sdk.go:303-351 | the scan finds a field's payload past any preceding fields and whatever follows |
| ProtoScan.ExtractBlockData | sdk/sdk.go:281-299 | by codec: both scans, the data itself, or an error |
| ProtoScan.ExtractsLeaf | sdk/sdk.go:281-351 | a DAG-PB node holding a UnixFS message with payload d gives exactly d, past links or other preceding fields |
| ProtoScan.LeafRoundTrip | sdk/dag.go:87-110 | what is stored for a leaf is extracted again, for every payload |
| ProtoWire.LeafBytes | sdk/dag.go:87-110 | the bytes of a stored leaf |
| ProtoWire.PayloadByCodec | sdk/sdk.go:281-299 | a raw block is its payload, a DAG-PB block has one iff the node's first field 1 has a first field 2, and every other codec fails |
| ChunkV1.Encrypt | private/encryption/encryption.go:30-57 | every outcome; on success nonce and seal of the old data in place, the rest untouched |
| ChunkV1.Decrypt | private/encryption/encryption.go:79-94 | every outcome; on success the plaintext behind the nonce; without a cipher or with too few bytes an unchanged buffer, and the nonce kept when authentication fails |
| ChunkV1.OpensSealed | private/encryption/encryption.go:30-94 | every plaintext, also the empty one, is decrypted, and encryption adds 28 bytes |
| ChunkV1.SealedBytes | private/encryption/encryption.go:30-57 | encrypted data is the nonce and then the seal |
| ChunkV1.OpenedIff | private/encryption/encryption.go:79-94 | exactly what decrypts to which plaintext, and exactly when each error is given |
| ChunkV1.BlocksAreShards | sdk/sdk_ipc.go:521-534 | with erasure coding, cutting the encoded chunk by its length over the shard count gives back exactly the shards |
| ChunkV1.RawBlockBytes | sdk/sdk_ipc.go:511-534 | without erasure coding, block k holds the k-th million bytes |
| ChunkV1.CreateChunkUpload | sdk/sdk_ipc.go:511-534 | when and how it fails, and otherwise the leaves of the encrypted and erasure-coded data, for all four combinations; in the buffer that calculateBufferSizeAndCapacity sizes it never reports a too small buffer and the wrapping happens in the buffer |
| ChunkV1.Collect | sdk/sdk_ipc.go:1220-1227 | blocks arriving in any order end up at their positions, unwrapped by the codec of their CID; an unreadable block is an error |
| ChunkV1.PlacesLeaves | sdk/sdk_ipc.go:1199-1227 | whatever the order of arrival, the positions hold the payloads of the leaves |
| ChunkV1.DownloadChunkBlocks | sdk/sdk_ipc.go:1220-1250 | every outcome of the download of a chunk once its blocks have arrived |
| ChunkV1.DownloadFails | sdk/sdk_ipc.go:1220-1250 | what a download of blocks that are no chunk gives: corrupted shards, a failed authentication and every other failure are reported |
| ChunkV1.ChunkRoundTrip | sdk/sdk_ipc.go:511-534 | for every combination of encryption and erasure coding, every chunk and every order of arrival, the download returns what was uploaded |
| ChunkV1.BufferSuffices | sdk/sdk_ipc.go:1478-1499 | everything read into the buffer leaves room to encrypt and to wrap it there, and one byte more would not |
| ChunkV1.SizesInNumbers | sdk/sdk_ipc.go:1478-1499 | the size and capacity of the buffer in numbers, for all four combinations |
| ChunkV1.BlocksWithinLimits | sdk/sdk_ipc.go:511-534 | every chunk has at most maxBlocksInChunk blocks, of at most 10^6 bytes, plus a k-th of the wrapping with erasure coding |
| Memtree.TotalIncreases | private/merkletree/proof.go:162-175 | the number of nodes grows strictly with the number of leaves |
| Memtree.TotalAtLeast | private/merkletree/proof.go:162-175 | n leaves make at least 2n - 1 nodes, exactly as many iff n is a power of two |
| Memtree.SizeAcceptedIff | private/merkletree/proof.go:93-118 | the size check accepts the tree of n leaves iff it has at most 2n nodes, and then recovers n |
| Memtree.FiveLeavesRejected | private/merkletree/proof.go:93-118 | the tree of five leaves can be built but not proved from |
| Memtree.ParentOf | private/merkletree/proof.go:51-69 | the sibling slot of every node, also the one past an odd level, is where its parent's hash came from |
| Memtree.NodesAreHashes | private/merkletree/proof.go:51-69 | every node above the leaves is the SHA-256 of its two children, left then right: equal in 31 bytes, and modulo 64, so below 64, in the last |
| Memtree.ExtractedProofsVerify | private/merkletree/proof.go:89-203 | for every built tree a proof is extracted exactly for valid indexes of accepted sizes, carries the tree's leaf, and is accepted |
| Memtree.ProofErrors | private/merkletree/proof.go:93-131 | exactly why no proof is extracted from a built tree |
| Memtree.AcceptsIff | private/merkletree/proof.go:184-203 | verification one sibling at a time, in terms of SHA-256 and the last byte modulo 64, for every index |
| Memtree.OneSibling | private/merkletree/proof.go:178-203 | with one sibling the root is the masked SHA-256 of node and sibling at even indexes, and of sibling and node at odd ones |
| Memtree.SameRootSameProof | private/merkletree/proof.go:184-203 | two proofs of equal length accepted for one root and index agree on leaf and siblings, or yield two different 64-byte inputs with one hash |
| Memtree.BoundToTree | private/merkletree/proof.go:184-203 | for every built tree, also one that MemtreeProof rejects, a full-depth proof accepted for its root and a leaf's index carries that leaf and the tree's own siblings, or yields a collision |
| MemtreeIndex.IndexBinds | private/merkletree/proof.go:184-203 | at every index exactly one node and path is accepted for a built tree's root, barring collisions: the index counts modulo the tree's width, names its leaf below the number of leaves, and from there on a node of the level above |
| MemtreeIndex.NegativeIndex | private/merkletree/proof.go:189-199 | a negative index is verified like its absolute value |
| MemtreeIndex.InnerNodeAsLeaf | private/merkletree/proof.go:184-203 | with three leaves, index 3 accepts the inner node above the first two |
| Memtree.ComputeTotalNodes | private/merkletree/proof.go:162-175 | the loop gives the levels, each half the one below rounded up, and their sum |
| Memtree.BuildMemtree | private/merkletree/proof.go:45-71 | the hashing loops, which read the slot past an odd level after writing it, keep the leaves and make every node above them the masked SHA-256 of the two below it |
| Memtree.MemtreeProof | private/merkletree/proof.go:89-160 | every outcome of proof extraction on any memtree of at least one node; its level loop ends |
| Memtree.VerifyMerkleProof | private/merkletree/proof.go:184-203 | accepts iff climbing from the leaf along the siblings gives the root, which `Memtree.AcceptsIff` states in terms of SHA-256; for every index, with Go's division |
| FileReader.ReadUpTo | sdk/sdk.go:405-412 | whatever the stream gives at a time, the buffer is filled with the next bytes or all that are left; the end is reported iff nothing was left; another error iff a read failed before the buffer was full, and no read is made after it |
| FileReader.SkipToPosition | sdk/sdk.go:385-403 | by seeking or by reading, the stream ends up at the position or at its end; it fails iff seeking fails, or a read does before the position is reached |
| PaddedReader.PaddedReader.Read | private/merkletree/io.go:24-49 | for every sequence of reads of any sizes, exactly how many bytes a read delivers and which error; what was delivered is a prefix of the source cut or zero-extended to the total; the end is reported iff all of it was delivered |
| UploadRecord.UploadState.PreCreateChunk | sdk/model.go:227-238 | the entry under the chunk's index has exactly this chunk and this transaction, all other entries are as before, and count, sizes and links grow by the chunk's; as a step of the transition system |
| UploadRecord.UploadState.ChunkUploaded | sdk/model.go:240-245 | only the chunk's entry is removed, all others are as before; as a step of the transition system |
| UploadRecord.UploadState.ListPreCreatedChunks | sdk/model.go:247-262 | all entries, each once, in ascending order of their keys |
| UploadRecord.Sorted | sdk/model.go:251-252 | the keys, each once, in ascending order |
| PipelineSteps.FailureStops | sdk/multi_upload.go:276-432 | a step whose operation reports failure, or that gives up on cancellation, leaves its goroutine returned with an error and the call cancelled, and changes nothing else |
| PipelineSteps.EmptyFileFails | sdk/multi_upload.go:295-301 | reading nothing in a first call is such a failure |
| PipelineSteps.RecordChanges | sdk/model.go:227-245 | the three ways in which the record changes, field by field: recording a chunk with its batch's transaction, uploading one, and the end of a call |
| PipelineSteps.OnlyFinishCommits | sdk/multi_upload.go:468-485 | the upload is marked committed only by a commit that succeeds; one that fails leaves the record as it is |
| PipelineSteps.CallsFollow | sdk/multi_upload.go:430-485 | a call ends when its three goroutines have returned, is committed only if none failed, and the next one starts after that |
| PipelineSteps.UploadsChange | sdk/multi_upload.go:409-428 | only a successful upload adds to what is uploaded, and it adds its chunk |
| PipelineSteps.ReadGives | sdk/multi_upload.go:292-336 | what a read before the end of the file adds to the batch, and when the batch is closed |
| PipelineSteps.NoNeedlessWait | sdk/multi_upload.go:272-407 | nobody waits without need: for room in the channel, for a batch in it, or for the uploader |
| PipelineSteps.CreatedBySteps | sdk/multi_upload.go:338-344 | over any steps, the history of created batches has exactly the transactions of the successful creations, in order |
| PipelineFlight.ReaderMoves | sdk/multi_upload.go:276-365 | recording puts one chunk at the end of those on their way to the uploader; no other action of the reader changes them, except giving up a send |
| PipelineFlight.ForwarderMoves | sdk/multi_upload.go:367-407 | the resume list goes before everything else; after that chunks are passed on in order, and only a failure drops those held |
| PipelineFlight.UploaderMoves | sdk/multi_upload.go:409-428 | the uploader takes the chunks on their way one at a time from the front |
| PipelineInvariant.InitialInv | sdk/model.go:200-225 | a new upload meets the invariant |
| PipelineInvariant.StepKeeps | sdk/multi_upload.go:243-485 | every step of every goroutine, a failure, a cancellation, the start and the end of a call keep the invariant; what a failing step changes is stated by `PipelineSteps.FailureStops` |
| PipelineSafety.RecordAgrees | sdk/multi_upload.go:243-485 | in every reachable state the count, sizes and links are those of the recorded chunks, and the indexes below the count split exactly into uploaded ones and keys of preCreatedChunks |
| PipelineSafety.ChunksPartition | sdk/multi_upload.go:277-365 | in every reachable state chunk k holds bytes [k*B, min((k+1)*B, len)) of the file: no gap and no overlap over any failures and resumes |
| PipelineSafety.CommitsOnlyComplete | sdk/multi_upload.go:430-478 | a call that succeeds, and so every commit, covers the whole, non-empty file: all pieces recorded and uploaded, nothing left in preCreatedChunks, actualFileSize the file's |
| PipelineSafety.SameAsUninterrupted | sdk/multi_upload.go:243-485 | two completed uploads of one file have the same chunks, whatever failures each had |
| PipelineSafety.FinishedInOrder | sdk/multi_upload.go:367-428 | in a call that succeeds the uploader finishes the resume list and then the call's own chunks, each part in index order; in a fresh upload every chunk exactly once |
| PipelineSafety.NothingLost | sdk/multi_upload.go:243-485 | over any steps, whatever fails, recorded chunks, links and the uploaded set only grow |
| PipelineSafety.CommittedIsFinal | sdk/multi_upload.go:244-246 | after a commit no step is possible |
| PipelineBatches.TransactionsKept | sdk/multi_upload.go:338-352 | in every reachable state each recorded chunk belongs to a created batch, and its entry in preCreatedChunks has that batch's transaction |
| PipelineBatches.WaitsForItsTransaction | sdk/multi_upload.go:370-397 | in every reachable state the resume list pairs each chunk with its batch's transaction, and what is passed on or waited for are created batches |
| PipelineBatches.RecordedAfterCreation | sdk/multi_upload.go:338-352 | in every run each recorded chunk comes after a successful creation of its batch's transaction in that run |
| PipelineBatches.BatchesBounded | sdk/multi_upload.go:274-338 | the channel keeps its capacity, no batch is empty or larger than configured, and only the last of a call is smaller |
| PipelineWaits.UploadedAfterWaiting | sdk/multi_upload.go:367-428 | in every reachable state, over any failures and resumes, the transaction of each chunk that is uploaded, being uploaded or about to be has been waited for with success |
| PipelineWaits.WaitedByStep | sdk/multi_upload.go:367-397 | waiting for a transaction with success is the only thing that counts as such |
| PipelineWaits.BatchesAreWhole | sdk/multi_upload.go:346-350 | whatever fails or is cancelled, a created batch is recorded as a whole: between calls no chunk of one is missing |
| PipelineProgress.NoDeadlock | sdk/multi_upload.go:272-432 | in every reachable state of a running call a goroutine can go on, unless all three have returned |
| PipelineProgress.WorkDecreases | sdk/multi_upload.go:272-432 | every step before the end of a call, whatever it decides, decreases one measure |
| PipelineProgress.CallEnds | sdk/multi_upload.go:243-432 | whatever its steps decide, a call takes at most 12 steps per byte of the file, and 7, until all three goroutines have returned |
| PipelineProgress.SmoothCallSucceeds | sdk/multi_upload.go:243-432 | a call on a non-empty file in which no operation fails and nothing is cancelled, whatever the scheduler picks, takes a bounded number of steps and, when none is left, has succeeded |
| PipelineProgress.Recoverable | sdk/multi_upload.go:243-485 | after any number of failed calls some continuation commits the file, if it is not empty |
| ConnectionPool.SameConnection | sdk/connection.go:52-98 | for any threads and interleaving, two successful gets return the same connection iff they are for one address between the same two closes |
| ConnectionPool.CreatedAreMapped | sdk/connection.go:52-98 | the connections created since the last close are exactly those in the map, one per address |
| ConnectionPool.ReturnedIsOpen | sdk/connection.go:52-98 | a connection returned since the last close is still in the map |
| ConnectionPool.StepsChange | sdk/connection.go:52-98 | what each section changes in the map, the created connections and the returns, also when creating one fails |
| ConnectionPool.EpochCounts | sdk/connection.go:80-98 | in every run the period counts the closes |
| ConnectionPool.Connections.LookupConnection | sdk/connection.go:53-58 | the section under the read lock returns the mapped connection or none, and is the lookup step |
| ConnectionPool.Connections.InsertConnection | sdk/connection.go:60-77 | the section under the write lock looks again, and only if nothing is mapped adds one new connection, or none if that fails; it is the insertion step |
| ConnectionPool.Connections.CloseAll | sdk/connection.go:80-98 | closes each connection of the map and leaves it empty |
| EndToEnd.Download | sdk/sdk_ipc.go:893-960 | writes the chunks in order up to the first that fails |
| Pieces.FirstFailureDecides | sdk/sdk_ipc.go:893-960 | of results one after another the first that is no success decides |
| EndToEnd.CommittedFileComesBack | sdk/multi_upload.go:243-485 | once an upload is committed, whatever failed and was resumed before, downloading its chunks with blocks in any order of arrival writes exactly the file; the keys agree because each chunk was recorded under the index that is its position |
| EndToEnd.Download2 | sdk/sdk_ipc_upload_download2.go:274-345 | collects and decodes the chunks in order up to the first that fails |
| EndToEnd.Chunk2ComesBack | sdk/sdk_ipc_upload_download2.go:350-552 | a chunk of the newer path, fetched as leaves in any order, gives its plaintext when no padding gets into a block, so always when k divides 16 |
| EndToEnd.CommittedFileComesBack2 | sdk/sdk_ipc_upload_download2.go:39-552 | the same for files uploaded by Upload2, under that condition on each chunk |

## Left out

- Network and chain calls, timers, retries, logging and counters: each is a step that succeeds or fails, and a call that fails before its goroutines start changes nothing and is not a step.
- Inside AES-GCM, HKDF, SHA-256 and Reed-Solomon: parameters with a contract; the IPFS DAG builder cuts into leaves of one size, on one level of at most 1024.
- The fr32 padding that fills the leaves of a memtree, and byte offsets in it: positions count nodes of 32 bytes.
- `AddLink` does not fail, so recording a batch does not either, and each `preCreateChunk` is one step, since only the reading goroutine writes the counters.
- Integer width: file sizes, counters and node counts are unbounded; the places where the code's 32-bit and 64-bit conversions matter (the header's length, block nonces, unwrapData) are modelled.
- Capacity of slices on malformed downloads: a slice bound above a block's length is taken as out of range, though the capacity of a sub-slice may allow it.
- CID decoding and verification: the codec of a block's CID comes with the block, and a block that fails verification does not arrive.
- StreamEnc.DecryptBlock: after a failed authentication the bytes of the block behind the header are not stated, because Go leaves it open what a failed opening does to its destination; the same for `StreamEnc.DecryptAllBlocks` and `ChunkV1.Decrypt`. What a buffer holds when the program stops with an out-of-range slice is not stated either.
- ChunkV2Padding.ChunkRoundTripIff: that the first block with padding in it does not authenticate is a hypothesis about that one block, because no contract of a cipher excludes that padding forges a tag.
- The locks of the connection pool and of the upload's record: what they protect is one step.
- `CreateFileUploads`, wallets, the command-line program, metadata encryption, the PDP provider and the generated bindings: orchestration or easy members.
