# Verified cores of the laboratory repository

This project models the algorithmic cores of the repository in Dafny and proves what they are for. Each
core keeps the form of its source: classes and loops where the source changes state, functions and lemmas
where it computes. `dafny verify dfyconfig.toml` checks everything.

| files | core | main results |
|---|---|---|
| PriceTimeBook, PriceTimeLaws, BookRep, BookSteps, OrderBook | limit order book: node pool with an intrusive free list, one doubly linked list per price, two level maps, id index | refinement of a price-time-priority book over every run; no trade beyond a limit; never crossed; quantity conserved; pool partitioned |
| HuffmanTree, HuffmanOptimal, HuffmanText, HuffmanBuild, HuffmanCodec | static Huffman coder | the code is optimal among all prefix-free codes and unique; 32-bit paths suffice; exact condition of the round trip |
| QoiFormat, QoiLaws, QoiLockstep, QoiCodec | QOI encoder and decoder | lockstep from any start history, with the exact condition; round trip for every image; shortest colour chunks; unique parse; length bound |
| FdRegistry, FdRuns, FdCollision, FdAlone | lock-free descriptor reference counts | invariant of every interleaving of atomic steps; closed exactly once; switch guards restore; safe if and only if home slots differ |
| Sums, Tensor2D, Matmul, DenseLayer | transposed views, matrix product, dense layer over the reals | product for any mix of views; backward is the exact adjoint of forward and total over all shapes |
| Tensor4D, Conv2D | padded convolution with unsigned wrap-around | equals the convolution of the zero-padded input |
| Recency, LruCache | cache over two node pools | contents over every history; the pools never run out |
| Crc32 | CRC-32 | equals the remainder of long division by the generator polynomial; bursts of up to 32 bits are always detected; both overloads agree |
| Base64 | streaming base64 and chunked output | equals the grouped form and decodes back; chunks encode slices |
| RunLength | greedy run-length packer | exact and shortest |
| XorList | list with xored links | both walks yield the appended values |
| Arithmetic, Collections, Bytes | shared arithmetic, sequences and sets | |

How the models read the sources:

- Order book. Prices, quantities and ids are unbounded naturals; `total_volume` is kept modulo 2^32. The id
  of a new order is not resting at that moment (line 245 overwrites the index, line 243 calls the id unique)
  and the pool has at least one node. The pool is a by-value member of the book, so its array and free list
  are fields of the same class; the buy and sell branches are one code with the side as a parameter.
- Huffman. Texts hold no zero byte (it marks inner nodes), at most 128 different characters (the array
  capacities), and fit: some prefix-free code packs them into 65000 bytes. A text of one repeated character
  is accepted but does not come back: the decoder returns zero bytes.
- QOI. Both programs start with every history slot opaque black, where the QOI specification 1.0 says
  zero-initialised. Together they restore every image; `SpecStart` says exactly which images a decoder that
  starts at zero restores. Width and height are below 2^31 and are parameters of the decoder, where the source
  has constants.
- Descriptors. Each atomic load, compare-and-swap, add, subtract or store is one step and steps of all
  handles interleave freely. Three rules bind the clients: one operation at a time on a handle object; no
  reset, move or give-up of a handle while another thread is copying it; a descriptor is adopted from its raw
  number once per open or give-up. A descriptor whose last handle gave it up by `release()` belongs to whoever
  took it, who may have it adopted again or close it; until then its number is in use but its home slot is not.
  The collision results show what happens when two descriptors held at the same time share a home slot.
- Layers. Floats are reals and the loops are sequential; initial weights are parameters. `forward` caches its
  input before the product throws, so `backward` may find a cached input of any width; it is modelled on all
  shapes. The convolution takes shapes whose padded extents fit the unsigned word and whose coordinates fit the
  signed one.
- Cache. `std::list` is a sequence of pool blocks with their contents, `std::unordered_map` a map whose nodes
  have pool blocks; capacity is at least one.
- Base64. The signed register wraps at 32 bits and shifts arithmetically.
- The xored list takes the allocator's addresses as arguments: non-null and not in use.

## Model

| member | source | states |
|---|---|---|
| `PriceTimeBook.QueuePos` | document/laboratory/cpp/Solution/HFT/main.cpp:223-241 | where a residual queues: behind every order of its side that is not strictly worse, before the first strictly worse one |
| `PriceTimeBook.SweepIsPrefix` | document/laboratory/cpp/Solution/HFT/main.cpp:105-205 | fills consume the opposite side as a prefix in (best price, arrival) order; at most the next order is partly filled and keeps its place; quantities balance; the sweep stops only when filled or when the front no longer crosses |
| `PriceTimeBook.SweepAllots` | document/laboratory/cpp/Solution/HFT/main.cpp:121-145 | closed form of price-time priority: each resting order loses exactly what is left of the incoming quantity after all crossing orders before it were served in full |
| `PriceTimeBook.SweepKeeps` | document/laboratory/cpp/Solution/HFT/main.cpp:105-205 | matching keeps order, distinct ids and positive quantities, and a residual crosses nothing that is left |
| `PriceTimeBook.EnqueueKeeps` | document/laboratory/cpp/Solution/HFT/main.cpp:212-246 | booking a residual keeps its side sorted, positive and with distinct ids |
| `PriceTimeBook.SubmitKeepsGood` | document/laboratory/cpp/Solution/HFT/main.cpp:98-247 | a new order with a fresh id keeps the book sorted, uncrossed, free of empty orders and within the pool |
| `PriceTimeBook.CancelKeepsGood` | document/laboratory/cpp/Solution/HFT/main.cpp:249-280 | a cancel keeps the same invariant |
| `PriceTimeBook.RunIsGood` | document/laboratory/cpp/Solution/HFT/main.cpp:98-280 | in every state reachable with fresh ids the best bid is below the best ask, both sides are sorted, no quantity is zero, ids are unique and the orders fit the pool |
| `PriceTimeBook.SubmitConserves` | document/laboratory/cpp/Solution/HFT/main.cpp:98-247 | submitted quantity = quantity taken from resting orders + quantity booked, unless the residual is dropped, which happens only when resting orders fill the whole pool |
| `PriceTimeBook.FreshPrefix` | document/laboratory/cpp/Solution/HFT/main.cpp:243-245 | the fresh-id condition on a run holds for every prefix of it |
| `PriceTimeLaws.BeyondLimitStands` | document/laboratory/cpp/Solution/HFT/main.cpp:116-116 | an order priced beyond the limit (above it for a buy, below it for a sell) stands unchanged after the trade |
| `PriceTimeLaws.SweepTrades` | document/laboratory/cpp/Solution/HFT/main.cpp:105-205 | in plain comparisons: the trade removes a prefix of the other side, shrinks at most the next order, touches nothing beyond the limit, and stops short of the quantity only when nothing within the limit is left |
| `PriceTimeLaws.EnqueueBooks` | document/laboratory/cpp/Solution/HFT/main.cpp:223-241 | in plain comparisons: the residual stands behind every order of equal or better price and before every worse one, and no other order moves |
| `PriceTimeLaws.SubmitExecutes` | document/laboratory/cpp/Solution/HFT/main.cpp:98-247 | every limit order trades within its limit as above and books exactly the quantity it did not trade, at its own price and id, unless every node rests |
| `PriceTimeLaws.WithoutWithdraws` | document/laboratory/cpp/Solution/HFT/main.cpp:249-280 | a cancel takes out the one order of that id and moves no other |
| `PriceTimeLaws.RunExecutes` | document/laboratory/cpp/Solution/HFT/main.cpp:98-280 | over every fresh run each limit order and each cancel does so |
| `BookRep.VolumeIsSum` | document/laboratory/cpp/Solution/HFT/main.cpp:62-80 | `total_volume` of a level is the sum of its orders' quantities modulo 2^32, exact below 2^32 |
| `BookRep.FillKeepsSide` | document/laboratory/cpp/Solution/HFT/main.cpp:128-131 | lowering a resting quantity and its level's volume keeps lists, levels and volumes consistent |
| `BookRep.UnlinkedChain` | document/laboratory/cpp/Solution/HFT/main.cpp:76-82 | bypassing a node leaves well-formed doubly linked lists, one per price, without that node |
| `BookRep.RemoveKeepsSide` | document/laboratory/cpp/Solution/HFT/main.cpp:76-82 | `Limit::remove` keeps the side: every other order in one well-formed list, head and tail right, `total_volume` the queue's sum modulo 2^32 |
| `BookRep.AppendKeepsSide` | document/laboratory/cpp/Solution/HFT/main.cpp:65-74 | `Limit::append` puts the node at the tail of its price list and keeps the side |
| `BookRep.CloseHole` | document/laboratory/cpp/Solution/HFT/main.cpp:147-153 | erasing a level exactly when its list is empty leaves no empty level |
| `BookRep.FreePop` | document/laboratory/cpp/Solution/HFT/main.cpp:39-46 | taking the head of the free list leaves the rest of the list |
| `BookRep.FreePush` | document/laboratory/cpp/Solution/HFT/main.cpp:48-51 | returning a node puts it at the head of the free list |
| `BookSteps.PoolIsPartitioned` | document/laboratory/cpp/Solution/HFT/main.cpp:27-57 | every pool node is in exactly one of: buy queue, sell queue, free list |
| `BookSteps.IndexIsBook` | document/laboratory/cpp/Solution/HFT/main.cpp:243-245 | the id index knows an id exactly when the abstract book holds it |
| `BookSteps.FillStep` | document/laboratory/cpp/Solution/HFT/main.cpp:126-131 | a partial fill keeps the whole representation consistent |
| `BookSteps.DropStep` | document/laboratory/cpp/Solution/HFT/main.cpp:134-141 | unlinking, unindexing and recycling a node keeps the whole representation consistent |
| `BookSteps.RestStep` | document/laboratory/cpp/Solution/HFT/main.cpp:212-246 | booking a residual keeps the whole representation consistent |
| `BookSteps.RestShows` | document/laboratory/cpp/Solution/HFT/main.cpp:212-246 | the booked residual takes its reference place in the abstract book and moves nothing else |
| `BookSteps.QueuePosIsTail` | document/laboratory/cpp/Solution/HFT/main.cpp:230-240 | the place the reference book gives to a residual is the tail of its price list |
| `BookSteps.BookIsClean` | document/laboratory/cpp/Solution/HFT/main.cpp:59-83 | in every consistent image both sides are sorted by price, hold no empty order and no id twice |
| `BookSteps.FrontIsBest` | document/laboratory/cpp/Solution/HFT/main.cpp:110-112 | the first key of the level map is the price at the front of the queue |
| `BookSteps.CancelIsRemove` | document/laboratory/cpp/Solution/HFT/main.cpp:249-280 | removing the indexed node removes exactly the order of that id from the abstract book |
| `BookSteps.Locate` | document/laboratory/cpp/Solution/HFT/main.cpp:253-276 | an indexed id leads to a node resting on the side recorded in it |
| `OrderBookEngine.OrderBook.constructor` | document/laboratory/cpp/Solution/HFT/main.cpp:27-37 | a new book is empty and all nodes are free, in index order |
| `OrderBookEngine.OrderBook.Allocate` | document/laboratory/cpp/Solution/HFT/main.cpp:39-46 | hands out the head of the free list with cleared links, or null when it is empty |
| `OrderBookEngine.OrderBook.Deallocate` | document/laboratory/cpp/Solution/HFT/main.cpp:48-51 | links the node in front of the free list |
| `OrderBookEngine.OrderBook.Append` | document/laboratory/cpp/Solution/HFT/main.cpp:65-74 | updates level and neighbours as the list model says |
| `OrderBookEngine.OrderBook.Remove` | document/laboratory/cpp/Solution/HFT/main.cpp:76-82 | updates level and neighbours as the list model says |
| `OrderBookEngine.OrderBook.BestPrice` | document/laboratory/cpp/Solution/HFT/main.cpp:109-112 | `begin()` is the price of the front of the queue |
| `OrderBookEngine.OrderBook.Drop` | document/laboratory/cpp/Solution/HFT/main.cpp:134-141 | takes one order out of list, level, index and pool; no other order changes |
| `OrderBookEngine.OrderBook.Execute` | document/laboratory/cpp/Solution/HFT/main.cpp:126-141 | one trade: the front order shrinks in place, or leaves if depleted |
| `OrderBookEngine.OrderBook.Serve` | document/laboratory/cpp/Solution/HFT/main.cpp:121-145 | one turn of the inner loop leaves exactly the rest of the sweep to do |
| `OrderBookEngine.OrderBook.SweepLevel` | document/laboratory/cpp/Solution/HFT/main.cpp:118-145 | the inner loop makes progress and leaves exactly the rest of the sweep to do |
| `OrderBookEngine.OrderBook.Match` | document/laboratory/cpp/Solution/HFT/main.cpp:105-205 | phase 1 terminates with the book and the quantity of the reference sweep |
| `OrderBookEngine.OrderBook.Rest` | document/laboratory/cpp/Solution/HFT/main.cpp:207-247 | phase 2 books the residual in the reference place unless every node rests |
| `OrderBookEngine.OrderBook.LimitOrder` | document/laboratory/cpp/Solution/HFT/main.cpp:98-247 | the pointer structure after the call represents the reference book after the same order; said in plain comparisons: nothing beyond the limit is touched, the trade goes as far as the limit admits, and the exact rest is booked in its place |
| `OrderBookEngine.OrderBook.CancelOrder` | document/laboratory/cpp/Solution/HFT/main.cpp:249-280 | the pointer structure after the call represents the reference book without the one order of that id; every other order keeps its place |
| `OrderBookEngine.Replay` | document/laboratory/cpp/Solution/HFT/main.cpp:85-280 | refinement over every run of orders and cancels from the empty book, and the reference book is good |
| `HuffmanOptimal.PrefixFreeFeasible` | document/laboratory/cpp/Solution/Compress/Huffman_String.cpp:93-115 | Kraft's inequality for every prefix-free list of code words |
| `HuffmanOptimal.MergeLoses` | document/laboratory/cpp/Solution/Compress/Huffman_String.cpp:93-115 | the exchange step: for the two lightest weights, any feasible code lengths can be turned into lengths for the merged weights without loss |
| `HuffmanOptimal.ReducesOptimal` | document/laboratory/cpp/Solution/Compress/Huffman_String.cpp:93-115 | every run of two-lightest merges ends at most as costly as any feasible lengths |
| `HuffmanText.TreeOfText` | document/laboratory/cpp/Solution/Compress/Huffman_String.cpp:71-115 | the tree of a text has its characters at distinct leaves, its paths are prefix-free, and coding the text costs the sum of the inner weights |
| `HuffmanText.GreedyIsOptimal` | document/laboratory/cpp/Solution/Compress/Huffman_String.cpp:93-115 | no prefix-free binary code for the text's characters encodes the text in fewer bits than the greedy tree |
| `HuffmanTree.ReducesHeavy` | document/laboratory/cpp/Solution/Compress/Huffman_String.cpp:93-115 | a merged tree of height h weighs at least Fib(h+2) |
| `HuffmanTree.BuildsUnique` | document/laboratory/cpp/Solution/Compress/Huffman_String.cpp:93-115 | with ties going to the earlier node, a list of leaves builds one tree only |
| `HuffmanTree.ReducesLeaning` | document/laboratory/cpp/Solution/Compress/Huffman_String.cpp:106-111 | at every node the left subtree is no heavier than the right one |
| `HuffmanText.LeavesRise` | document/laboratory/cpp/Solution/Compress/Huffman_String.cpp:80-91 | the leaves stand in character order |
| `HuffmanText.PathsFit` | document/laboratory/cpp/Solution/Compress/Huffman_String.cpp:31-69 | no path of a text that fits the output exceeds 27 bits, so 32 bits hold it |
| `HuffmanText.GreedyFits` | document/laboratory/cpp/Solution/Compress/Huffman_String.cpp:153-173 | if some prefix-free code packs the text into 65000 bytes, the greedy code does |
| `HuffmanText.ShortTextsFit` | document/laboratory/cpp/Solution/Compress/Huffman_String.cpp:40-40 | every text of at most 65000 characters fits |
| `HuffmanBuild.CountCharacters` | document/laboratory/cpp/Solution/Compress/Huffman_String.cpp:75-78 | the table holds each character's number of occurrences |
| `HuffmanBuild.MakeLeaves` | document/laboratory/cpp/Solution/Compress/Huffman_String.cpp:80-91 | one active leaf per occurring character, in character order, with its count |
| `HuffmanBuild.PickTwo` | document/laboratory/cpp/Solution/Compress/Huffman_String.cpp:94-104 | one scan finds the lightest and the second lightest active node, each the earliest among equals, or that fewer than two are left |
| `HuffmanBuild.MergeAll` | document/laboratory/cpp/Solution/Compress/Huffman_String.cpp:93-115 | the table ends in the one tree that the leaves build when ties go to the earlier node, with 2n-1 nodes |
| `HuffmanBuild.Visit` | document/laboratory/cpp/Solution/Compress/Huffman_String.cpp:133-149 | a child becomes minus its character or the index of its later turn in the queue |
| `HuffmanBuild.Flatten` | document/laboratory/cpp/Solution/Compress/Huffman_String.cpp:117-151 | the array holds exactly the tree, one entry per inner node, in breadth-first order: read entry by entry, the links to inner nodes count 1, 2, 3, ... |
| `HuffmanBuild.FlatHolds` | document/laboratory/cpp/Solution/Compress/Huffman_String.cpp:127-151 | entries that link to their children's queue places hold the whole tree |
| `HuffmanBuild.PathArrives` | document/laboratory/cpp/Solution/Compress/Huffman_String.cpp:133-149 | the walk down the array along the path of a character, left on 0 and right on 1, ends at minus that character |
| `HuffmanCodec.FindPathIsPath` | document/laboratory/cpp/Solution/Compress/Huffman_String.cpp:45-69 | the search returns the tree's path of the character, folded onto the bits so far, and its length |
| `HuffmanCodec.FoldIsValue` | document/laboratory/cpp/Solution/Compress/Huffman_String.cpp:45-69 | a path of at most 32 bits survives the 32-bit shifts as its binary value |
| `HuffmanCodec.ValueDigit` | document/laboratory/cpp/Solution/Compress/Huffman_String.cpp:161-162 | shifting the value right by len-1-b shows bit b of the path |
| `HuffmanCodec.PackBit` | document/laboratory/cpp/Solution/Compress/Huffman_String.cpp:162-171 | setting one bit extends the packed stream by that bit and disturbs no other |
| `HuffmanCodec.TestIsDigit` | document/laboratory/cpp/Solution/Compress/Huffman_String.cpp:164-164 | place s of a byte is its binary digit of weight 2^(7-s) |
| `HuffmanCodec.PackedDigits` | document/laboratory/cpp/Solution/Compress/Huffman_String.cpp:162-171 | the packed stream in arithmetic: bit p of the stream is digit 7 - p % 8 of byte p / 8, and all digits behind it are zero |
| `HuffmanCodec.CompileTimeHuffman.PackPath` | document/laboratory/cpp/Solution/Compress/Huffman_String.cpp:160-171 | the packed stream grows by exactly the path |
| `HuffmanCodec.CompileTimeHuffman.Pack` | document/laboratory/cpp/Solution/Compress/Huffman_String.cpp:153-173 | the byte array holds the code words of the text in order, zeros behind, and the size is rounded up to bytes |
| `HuffmanCodec.CompileTimeHuffman.constructor` | document/laboratory/cpp/Solution/Compress/Huffman_String.cpp:71-174 | the one tree of the text, its array in breadth-first order, the stream high bit first, sizes; the stream is shortest among all prefix-free codes |
| `HuffmanCodec.PathFound` | document/laboratory/cpp/Solution/Compress/Huffman_String.cpp:157-158 | for every character of a fitting text the search finds its whole path |
| `HuffmanCodec.BitReader.ReadBit` | document/laboratory/cpp/Solution/Compress/Huffman_String.cpp:200-208 | returns the stream's bit at the position, digit 7 - bitIdx of the byte, and moves on by one |
| `HuffmanCodec.DecodeBit` | document/laboratory/cpp/Solution/Compress/Huffman_String.cpp:213-226 | one bit moves down one link, or out at the leaf of the right character |
| `HuffmanCodec.ReadText` | document/laboratory/cpp/Solution/Compress/Huffman_String.cpp:213-228 | the loop returns the text and consumes exactly the bits written |
| `HuffmanCodec.Decompress` | document/laboratory/cpp/Solution/Compress/Huffman_String.cpp:186-229 | returns the source using exactly the written bits, or zeros if the source repeats one character |
| `HuffmanCodec.RoundTrip` | document/laboratory/cpp/Solution/Compress/Huffman_String.cpp:71-229 | compress then decompress is the identity if and only if the text does not consist of one repeated character |
| `QoiFormat.ColourChunkReads` | document/laboratory/cpp/Solution/Compress/QOI4MCU.cpp:89-119 | reading the chunk written for a colour gives the colour back, for every previous pixel (8-bit wrap-around included), and uses exactly its bytes |
| `QoiLaws.HistoryIsLast` | document/laboratory/cpp/Solution/Compress/QOI4MCU.cpp:81-87 | each slot of the encoder's history holds the last pixel whose 3r + 5g + 7b + 11a is that slot modulo 64, opaque black if there was none |
| `QoiLaws.StreamGoesOn` | document/laboratory/cpp/Solution/Compress/QOI4MCU.cpp:60-127 | at every pixel the chunks still to come depend on the earlier pixels through that history, the last pixel and the pending run only |
| `QoiLaws.ColourMeans` | document/laboratory/cpp/Solution/Compress/QOI4MCU.cpp:89-119 | the chunk written for a colour leads to it by the byte arithmetic of the QOI specification 1.0, 8-bit wrap-around included |
| `QoiLaws.ColourIsShortest` | document/laboratory/cpp/Solution/Compress/QOI4MCU.cpp:89-119 | no chunk of the format that leads from the previous colour to this one is shorter |
| `QoiLaws.ReadMeans` | document/laboratory/cpp/Solution/Compress/qoi_to_gst.cpp:39-63 | the decoder reads a colour chunk as a colour if and only if the chunk leads to it |
| `QoiLaws.FreshChunk` | document/laboratory/cpp/Solution/Compress/QOI4MCU.cpp:81-119 | a pixel that differs from the one before is written as an index, of the slot 3r + 5g + 7b + 11a modulo 64, exactly if the last pixel of that slot has its colour, else as a shortest chunk that leads to it |
| `QoiLaws.BlackStarts` | document/laboratory/cpp/Solution/Compress/QOI4MCU.cpp:56-56 | the pixel before the first counts as opaque black: an image of one such pixel is a run of one |
| `QoiLaws.DecodeRemembers` | document/laboratory/cpp/Solution/Compress/qoi_to_gst.cpp:64-78 | after a chunk the decoder's history holds its colour in slot 3r + 5g + 7b + 11a modulo 64 and is unchanged elsewhere |
| `QoiLaws.RunsAreFull` | document/laboratory/cpp/Solution/Compress/QOI4MCU.cpp:69-79 | a run that another run follows has the full 62 pixels |
| `QoiLockstep.RunDecodes` | document/laboratory/cpp/Solution/Compress/qoi_to_gst.cpp:62-72 | a run chunk of up to 62 pixels reads back as that run; the decoder's history, whatever it holds, changes in the slot of that colour only |
| `QoiLockstep.PixelDecodes` | document/laboratory/cpp/Solution/Compress/QOI4MCU.cpp:81-121 | a decoder with any history reads the chunk of a fresh pixel as that pixel, or, if the encoder wrote an index, as what its own history holds there |
| `QoiLockstep.Lockstep` | document/laboratory/cpp/Solution/Compress/QOI4MCU.cpp:54-127 | a decoder that holds every colour the encoder has stored, the same in the slot of opaque black, and the last pixel turns the rest of the stream into the pending pixels and the rest of the source and stops right behind it |
| `QoiLockstep.UnsyncedRun` | document/laboratory/cpp/Solution/Compress/QOI4MCU.cpp:54-127 | a decoder that differs in the slot of opaque black turns the rest of the stream into the rest of the source if and only if the first pixel of that slot is not opaque black, or there is none, or it is the very next pixel and the colour before it is the opaque black of the start |
| `QoiLockstep.AnyStart` | document/laboratory/cpp/Solution/Compress/QOI4MCU.cpp:54-127 | for every history a decoder may start with: it reads the chunks of every image back if and only if the history holds opaque black in its slot or the image survives without |
| `QoiFormat.FirstIndexIsNew` | document/laboratory/cpp/Solution/Compress/QOI4MCU.cpp:81-87 | an index chunk never names the slot of the pixel before it |
| `QoiFormat.NoRepeatedIndex` | document/laboratory/cpp/Solution/Compress/QOI4MCU.cpp:60-123 | no two consecutive index chunks of the chunk list name the same slot |
| `QoiFormat.BodyLength` | document/laboratory/cpp/Solution/Compress/QOI4MCU.cpp:54-127 | at most channels + 1 bytes a pixel |
| `QoiCodec.EmitColour` | document/laboratory/cpp/Solution/Compress/QOI4MCU.cpp:89-119 | the encoder's arithmetic writes the specified colour chunk |
| `QoiCodec.EmitPixel` | document/laboratory/cpp/Solution/Compress/QOI4MCU.cpp:67-122 | one turn of the loop writes the specified chunks and moves history, previous pixel and run as specified |
| `QoiCodec.CompressBody` | document/laboratory/cpp/Solution/Compress/QOI4MCU.cpp:54-127 | the loop and the last flush write the specified chunks of the image |
| `QoiCodec.CompressToQoi` | document/laboratory/cpp/Solution/Compress/QOI4MCU.cpp:30-134 | header, chunks and trailer |
| `QoiCodec.WritePixels` | document/laboratory/cpp/Solution/Compress/qoi_to_gst.cpp:64-70 | writes `count` pixels as four bytes each behind the pixels already written |
| `QoiCodec.TakeChunk` | document/laboratory/cpp/Solution/Compress/qoi_to_gst.cpp:38-63 | one turn of the decoder reads one chunk as the format says |
| `QoiCodec.DecodeChunk` | document/laboratory/cpp/Solution/Compress/qoi_to_gst.cpp:38-81 | one turn of the loop reads one chunk, writes its pixels behind the others and puts the colour into slot 3r + 5g + 7b + 11a modulo 64 of the history, leaving the other slots |
| `QoiCodec.DecompressBody` | document/laboratory/cpp/Solution/Compress/qoi_to_gst.cpp:28-81 | writes exactly the decoded pixels, leaves zeros behind them if the data ends early, and ends right behind their chunks |
| `QoiCodec.DecompressQoi` | document/laboratory/cpp/Solution/Compress/qoi_to_gst.cpp:25-84 | the same for the whole call |
| `QoiCodec.StreamDecodesFrom` | document/laboratory/cpp/Solution/Compress/QOI4MCU.cpp:30-134 | the exact condition under which a decoder with a given start history reads the encoder's stream back with exactly the trailer left |
| `QoiCodec.StreamDecodes` | document/laboratory/cpp/Solution/Compress/qoi_to_gst.cpp:35-36 | the repository's decoder meets it for every image |
| `QoiCodec.SpecStart` | document/laboratory/cpp/Solution/Compress/QOI4MCU.cpp:55-123 | a decoder whose history starts at zero, as the QOI specification 1.0 says, reads the stream back if and only if no pixel hashes to slot 53, or the first that does is not opaque black, or it is the first pixel of the image |
| `QoiCodec.RedBlackFails` | document/laboratory/cpp/Solution/Compress/QOI4MCU.cpp:55-55 | an image that such a decoder does not read back: a red pixel and a black one |
| `QoiCodec.RoundTrip` | document/laboratory/cpp/Solution/Compress/qoi_to_gst.cpp:25-84 | for every 3- or 4-channel image the decoder's 4*w*h bytes are, pixel by pixel, the red, green and blue byte of the raw image and 255, and it stops before the trailer |
| `QoiCodec.StreamLength` | document/laboratory/cpp/Solution/Compress/QOI4MCU.cpp:34-131 | at most 14 + n*(channels+1) + 8 bytes for n pixels |
| `QoiCodec.StreamFrame` | document/laboratory/cpp/Solution/Compress/QOI4MCU.cpp:37-134 | every stream starts with "qoif", both extents as big-endian numbers, the channels and a zero, and ends in seven zeros and a one |
| `QoiFormat.RunTag` | document/laboratory/cpp/Solution/Compress/QOI4MCU.cpp:70-79 | the tag of a run of at most 62 pixels stays below 0xFE |
| `QoiFormat.EncodedTagged` | document/laboratory/cpp/Solution/Compress/QOI4MCU.cpp:60-127 | every chunk written has the size its first byte announces |
| `QoiFormat.ChunksOfConcat` | document/laboratory/cpp/Solution/Compress/qoi_to_gst.cpp:38-63 | cutting bytes by their tags alone gives back the chunks they were made of |
| `QoiFormat.UniqueParse` | document/laboratory/cpp/Solution/Compress/qoi_to_gst.cpp:38-63 | two lists of well-tagged chunks with the same bytes are the same list |
| `QoiFormat.ReadsTagged` | document/laboratory/cpp/Solution/Compress/qoi_to_gst.cpp:39-63 | the decoder uses exactly the bytes the tag announces |
| `QoiFormat.DecodeRest` | document/laboratory/cpp/Solution/Compress/qoi_to_gst.cpp:38-81 | what the decoder leaves over is the end of its data |
| `QoiCodec.StreamParses` | document/laboratory/cpp/Solution/Compress/QOI4MCU.cpp:30-134 | cut by its tags alone, the body of every stream gives exactly the chunks written, each well tagged; no two consecutive index chunks name the same slot, and a run that another follows is full |
| `FdRegistry.OpenInv` | linux/common/ipc/sfd/smart_file_descriptor.h:91-93 | adopting a newly opened descriptor keeps the invariant while the descriptors held by handles have different home slots; those given up do not count |
| `FdRegistry.ReadoptInv` | linux/common/ipc/sfd/smart_file_descriptor.h:91-93 | adopting a descriptor that was given up before keeps the invariant under the same condition |
| `FdRegistry.DisposeInv` | linux/common/ipc/sfd/smart_file_descriptor.h:154-162 | a descriptor that was given up may be closed by its new owner |
| `FdRegistry.CopyInv` | linux/common/ipc/sfd/smart_file_descriptor.h:119-121 | starting a copy keeps the invariant |
| `FdRegistry.MoveInv` | linux/common/ipc/sfd/smart_file_descriptor.h:137-140 | moving a handle keeps the invariant |
| `FdRegistry.ResetInv` | linux/common/ipc/sfd/smart_file_descriptor.h:154-172 | starting a reset or a give-up keeps the invariant |
| `FdRegistry.ScanInv` | linux/common/ipc/sfd/sfd_static_registry.h:48-65 | each load of the fast scan keeps the invariant |
| `FdRegistry.ClaimInv` | linux/common/ipc/sfd/sfd_static_registry.h:69-87 | each compare-and-swap of the claim loop keeps the invariant |
| `FdRegistry.BumpInv` | linux/common/ipc/sfd/sfd_static_registry.h:57-58 | the increments and the initial store keep the invariant |
| `FdRegistry.SeekInv` | linux/common/ipc/sfd/sfd_static_registry.h:98-102 | each load of the release scan keeps the invariant |
| `FdRegistry.TakeInv` | linux/common/ipc/sfd/sfd_static_registry.h:103-107 | the decrement keeps the invariant |
| `FdRegistry.LastOne` | linux/common/ipc/sfd/sfd_static_registry.h:103-105 | the decrement that finds 1 leaves no other handle of the descriptor, in flight or not |
| `FdRegistry.FreeInv` | linux/common/ipc/sfd/sfd_static_registry.h:104-105 | freeing the slot keeps the invariant; after a give-up the descriptor leaves the care of the registry |
| `FdRegistry.CloseInv` | linux/common/ipc/sfd/smart_file_descriptor.h:167-170 | the close keeps the invariant |
| `FdRegistry.StepInv` | linux/common/ipc/sfd/sfd_static_registry.h:41-111 | every atomic step of every operation, in any interleaving, keeps the invariant while the descriptors held by handles have different home slots |
| `FdRuns.RunInv` | linux/common/ipc/sfd/sfd_static_registry.h:41-111 | the invariant holds after every interleaved run in which the descriptors held by handles at one time have different home slots, so none is closed early or twice; a number may come back in a colliding slot after its close or its give-up |
| `FdRuns.WithinIsSpaced` | linux/common/ipc/sfd/sfd_static_registry.h:41-111 | in particular every run over a set of descriptors with different home slots is such a run |
| `FdRuns.ClosesLast` | linux/common/ipc/sfd/smart_file_descriptor.h:164-172 | the handle that closes is the last one and its descriptor is open |
| `FdRuns.ClosedExactlyOnce` | linux/common/ipc/sfd/smart_file_descriptor.h:164-172 | in every state of the invariant, a descriptor without handles that is not with an owner it was given up to was closed as often as it was opened, counting the closes by handles and those by such owners |
| `FdRuns.RunClosesOnce` | linux/common/ipc/sfd/smart_file_descriptor.h:164-172 | over every such run from the empty registry, a descriptor whose handles all ended through reset was closed by handles exactly as often as it was opened, whatever was given up, adopted again or closed by others of other descriptors |
| `FdRuns.CountIsHandles` | linux/common/ipc/sfd/sfd_static_registry.h:57-57 | a slot's count is the number of live handles the registry has counted, that is all but retains that have not added yet and releases that have subtracted; with none of those in flight it is the number of live handles |
| `FdRuns.UseCount` | linux/common/ipc/sfd/smart_file_descriptor.h:193-193 | at rest `use_count` is the number of handles of the descriptor |
| `FdRuns.GetCountReadsHome` | linux/common/ipc/sfd/sfd_static_registry.h:114-121 | with the registry changing between any two loads, `get_count` answers the count of the home slot right after the load that found the descriptor there, or zero |
| `FdRuns.GuardEnter` | linux/common/ipc/sfd/smart_file_descriptor.h:236-247 | entering a switch guard moves the two handles and counts, releases and closes nothing, also when both names denote one object |
| `FdRuns.GuardRestores` | linux/common/ipc/sfd/smart_file_descriptor.h:236-261 | enter, let the other handles run in any interleaving, leave: both handles are what they were before, and entering and leaving count, release and close nothing; the condition is that nobody touches the three handles meanwhile and no copy from the held ones is under way at the end |
| `FdCollision.LeaveAstray` | linux/common/ipc/sfd/sfd_static_registry.h:60-87 | after adopting two descriptors with one home slot and dropping the first, the second is registered away from an empty home slot |
| `FdCollision.CollisionBreaks` | linux/common/ipc/sfd/sfd_static_registry.h:60-64 | for any two descriptors with the same home slot there is a run that closes one of them under a live handle |
| `FdCollision.SafeIffSpaced` | linux/common/ipc/sfd/sfd_static_registry.h:41-111 | no run over a set of descriptors closes one early or twice if and only if their home slots are pairwise different |
| `FdAlone.RetainFinds` | linux/common/ipc/sfd/sfd_static_registry.h:48-65 | undisturbed, a retain that meets its descriptor before any unused slot, probing from fd modulo the slot count upwards, adds one there and changes nothing else |
| `FdAlone.RetainClaims` | linux/common/ipc/sfd/sfd_static_registry.h:62-87 | one that meets an unused slot first registers its descriptor there with a count of one, even if it is registered further on |
| `FdAlone.RetainFull` | linux/common/ipc/sfd/sfd_static_registry.h:69-88 | one that finds every slot taken by others counts nothing |
| `FdAlone.ReleaseFinds` | linux/common/ipc/sfd/sfd_static_registry.h:98-108 | undisturbed, a release takes one from the first slot that holds its descriptor; only the count that reaches zero frees the slot and closes |
| `FdAlone.ReleaseMisses` | linux/common/ipc/sfd/sfd_static_registry.h:98-110 | one that finds its descriptor nowhere changes nothing and closes nothing |
| `Tensors.Transpose` | document/laboratory/cpp/MachineLearning/include/Tensor2D.h:82-87 | a view shows entry (c, r) of its tensor at (r, c) and swaps the extents |
| `Tensors.TransposeTwice` | document/laboratory/cpp/MachineLearning/include/Tensor2D.h:82-87 | transposing twice gives the same tensor |
| `Tensors.CellOrder` | document/laboratory/cpp/MachineLearning/include/Tensor2D.h:43-61 | rows are stored one after the other, each from left to right |
| `Tensors.AtIsExact` | document/laboratory/cpp/MachineLearning/include/Tensor2D.h:43-61 | the bounds test of `at` admits exactly the index pairs of the matrix if and only if the tensor is not a view, is square or is empty |
| `Matmul.PlainRow` | document/laboratory/cpp/MachineLearning/include/Tensor2D.h:98-111 | case 1 fills one row with the product's entries and touches no other row |
| `Matmul.RowTimesView` | document/laboratory/cpp/MachineLearning/include/Tensor2D.h:115-128 | case 2 fills one row with the product's entries and touches no other row |
| `Matmul.ColumnSum` | document/laboratory/cpp/MachineLearning/include/Tensor2D.h:119-126 | the inner sum of case 2 is the entry of the product |
| `Matmul.ViewRow` | document/laboratory/cpp/MachineLearning/include/Tensor2D.h:131-138 | case 3 fills one row with the product's entries and touches no other row |
| `Matmul.Multiply` | document/laboratory/cpp/MachineLearning/include/Tensor2D.h:89-142 | succeeds exactly when the inner extents agree and then is the product of the matrices shown, for any mix of views |
| `Matmul.UnitProduct` | document/laboratory/cpp/MachineLearning/include/Tensor2D.h:93-145 | a product with a matrix that is one at (p, q) and zero elsewhere has column p of the left factor as column q and zeros elsewhere |
| `DenseLayers.DenseLayer.ZeroGradients` | document/laboratory/cpp/MachineLearning/include/DenseLayer.h:56-60 | both gradients become zero |
| `DenseLayers.DenseLayer.Forward` | document/laboratory/cpp/MachineLearning/include/DenseLayer.h:63-77 | caches the input; if the extents agree returns input times weights plus the bias in every row |
| `DenseLayers.DenseLayer.Backward` | document/laboratory/cpp/MachineLearning/include/DenseLayer.h:80-111 | succeeds exactly when rows, columns and cached width fit and `at` is exact on the incoming gradient; then adds the transposed input times the incoming gradient, and its column sums, to the stored gradients and returns the incoming gradient times the transposed weights; on a failure exactly the accesses before it have taken effect |
| `DenseLayers.AddInto` | document/laboratory/cpp/MachineLearning/include/DenseLayer.h:87-93 | the weight loop adds cell by cell until an access fails |
| `DenseLayers.AddColumns` | document/laboratory/cpp/MachineLearning/include/DenseLayer.h:95-104 | the bias gradient gains the column sums, or those entries before the first failing access |
| `DenseLayers.BackwardIsAdjoint` | document/laboratory/cpp/MachineLearning/include/DenseLayer.h:63-111 | the output paired with any incoming gradient, less the bias share, equals the input paired with the returned gradient and the weights paired with what their gradient gained |
| `DenseLayers.GradientPredicts` | document/laboratory/cpp/MachineLearning/include/DenseLayer.h:63-111 | for any two settings of weights and bias the stored gradients give exactly the difference of the paired outputs |
| `Tensors4.PlaceInside` | document/laboratory/cpp/MachineLearning/include/Tensor4D.h:24-42 | the strided place of an index inside the extents is inside the buffer |
| `Tensors4.PlaceInjective` | document/laboratory/cpp/MachineLearning/include/Tensor4D.h:24-42 | different index vectors never share a cell |
| `Tensors4.PlaceOrder` | document/laboratory/cpp/MachineLearning/include/Tensor4D.h:36-43 | entries are stored in the order batch, channel, row, column |
| `Tensors4.WriteReads` | document/laboratory/cpp/MachineLearning/include/Tensor4D.h:36-42 | an assignment through `at` changes exactly that entry |
| `Conv2D.SignedExact` | document/laboratory/cpp/MachineLearning/include/Conv2DLayer.h:81-82 | wrapping to 64 bits and casting back is exact if and only if the value fits the signed type |
| `Conv2D.CoordinateExact` | document/laboratory/cpp/MachineLearning/include/Conv2DLayer.h:75-82 | the coordinate computed through an underflowing window origin is the true one if and only if that fits the signed type |
| `Conv2D.WindowFits` | document/laboratory/cpp/MachineLearning/include/Conv2DLayer.h:61-63 | every output index has its whole window inside the padded input |
| `Conv2D.NoMoreWindows` | document/laboratory/cpp/MachineLearning/include/Conv2DLayer.h:61-63 | one more window would not fit |
| `Conv2D.CoordinatesExact` | document/laboratory/cpp/MachineLearning/include/Conv2DLayer.h:75-86 | under the shapes accepted, every coordinate of every window and the extents themselves are exact in the signed type |
| `Conv2D.Term` | document/laboratory/cpp/MachineLearning/include/Conv2DLayer.h:81-90 | the guard admits exactly the unpadded cells, so a term is padded input times weight |
| `Conv2D.WindowSum` | document/laboratory/cpp/MachineLearning/include/Conv2DLayer.h:73-93 | the three inner loops sum all terms of the window |
| `Conv2D.Convolve` | document/laboratory/cpp/MachineLearning/include/Conv2DLayer.h:57-100 | every output cell is the convolution of the zero-padded input plus the bias |
| `Conv2D.UnitKernel` | document/laboratory/cpp/MachineLearning/include/Conv2DLayer.h:73-98 | with a kernel that is one at (ic, kh, kw) and zero elsewhere, output cell (oh, ow) less the bias is the input at (oh*stride + kh - padding, ow*stride + kw - padding) of channel ic, zero in the padding |
| `Conv2D.Conv2DLayer.Forward` | document/laboratory/cpp/MachineLearning/include/Conv2DLayer.h:54-101 | caches the input and returns the convolution |
| `Recency.AfterIsRecent` | document/laboratory/cpp/FriendlyCache/PoolAllocator.h:165-196 | after every history the list is the first Capacity distinct keys in reverse order of touches (puts and get hits), each with the value of its last put |
| `Recency.AnswerIsLastPut` | document/laboratory/cpp/FriendlyCache/PoolAllocator.h:165-174 | a lookup answers the last put value exactly for the kept keys |
| `Recency.StepKeys` | document/laboratory/cpp/FriendlyCache/PoolAllocator.h:165-196 | one call moves the list from the kept keys of a history to those of the extended history |
| `Recency.CallMoves` | document/laboratory/cpp/FriendlyCache/PoolAllocator.h:165-196 | one call, entry by entry: a hit moves to the front, a miss changes nothing, a new key comes to the front and the last entry of a full cache goes |
| `LruCaches.Pool.constructor` | document/laboratory/cpp/FriendlyCache/PoolAllocator.h:38-46 | all blocks are on the free list |
| `LruCaches.Pool.Allocate` | document/laboratory/cpp/FriendlyCache/PoolAllocator.h:85-101 | hands out the first free block, or fails if there is none |
| `LruCaches.Pool.Deallocate` | document/laboratory/cpp/FriendlyCache/PoolAllocator.h:103-115 | puts the block in front of the free list |
| `LruCaches.SharesCovers` | document/laboratory/cpp/FriendlyCache/PoolAllocator.h:85-115 | every block is either free or live |
| `LruCaches.TakesBlock` | document/laboratory/cpp/FriendlyCache/PoolAllocator.h:94-100 | an allocated block was not live |
| `LruCaches.LruCache.constructor` | document/laboratory/cpp/FriendlyCache/PoolAllocator.h:163-163 | a new cache is empty |
| `LruCaches.LruCache.Get` | document/laboratory/cpp/FriendlyCache/PoolAllocator.h:165-174 | answers the entry and moves it to the front; no block is allocated or freed |
| `LruCaches.LruCache.EvictLast` | document/laboratory/cpp/FriendlyCache/PoolAllocator.h:186-191 | removes the last entry from list and map and frees both nodes |
| `LruCaches.LruCache.InsertFront` | document/laboratory/cpp/FriendlyCache/PoolAllocator.h:193-195 | both allocations succeed and the new entry is in front |
| `LruCaches.LruCache.Put` | document/laboratory/cpp/FriendlyCache/PoolAllocator.h:176-196 | the list after the call is the reference step; neither pool runs out |
| `LruCaches.Replay` | document/laboratory/cpp/FriendlyCache/PoolAllocator.h:143-199 | over every run the cache holds the most recently touched keys with their last values and answers every lookup accordingly |
| `Crc32.CalculateCrc32` | linux/common/util/constexpr_util.h:16-25 | the byte-array overload computes the checksum by its definition: the complemented remainder of long division by the generator polynomial |
| `Crc32.CalculateCrc32OfText` | linux/common/util/constexpr_util.h:27-36 | the string overload returns the same checksum as the byte-array overload on bytes with the same codes as the characters |
| `Crc32.PolynomialIsStandard` | linux/common/util/constexpr_util.h:21-21 | the constant is the polynomial of clause 3.2.9 of IEEE 802.3 with its bits reversed |
| `Crc32.BytesAreText` | linux/common/util/constexpr_util.h:30-30 | the message of a text has, byte for byte, the character codes |
| `Crc32.MessageBitIs` | linux/common/util/constexpr_util.h:18-23 | bit 8k + i of the message is the digit of weight 2^i of byte k |
| `Crc32.CheckValue` | linux/common/util/constexpr_util.h:27-36 | the checksum of "123456789" is 0xCBF43926 |
| `Crc32.StepsLinear` | linux/common/util/constexpr_util.h:20-22 | the bit steps are linear over exclusive or |
| `Crc32.StepsInjective` | linux/common/util/constexpr_util.h:20-22 | running the register any number of steps is one-to-one |
| `Crc32.SameBits` | linux/common/util/constexpr_util.h:16-36 | two registers fed the same bits differ by their stepped initial difference |
| `Crc32.ByteFeeds` | linux/common/util/constexpr_util.h:19-22 | the eight steps of a byte are one step for each of its bits, low bit first |
| `Crc32.StepDivides` | linux/common/util/constexpr_util.h:20-22 | one step of the register is one step of the long division by the generator polynomial |
| `Crc32.FeedIsRemainder` | linux/common/util/constexpr_util.h:16-36 | the register is the remainder of that division, for messages of any length |
| `Crc32.CrcIsRemainder` | linux/common/util/constexpr_util.h:16-36 | the checksum is the complemented remainder of the message times x^32, its leading 32 bits inverted, by the generator polynomial |
| `Crc32.FeedsAtOnce` | linux/common/util/constexpr_util.h:18-23 | feeding up to 32 bits equals adding them as one word and stepping |
| `Crc32.BurstDetected` | linux/common/util/constexpr_util.h:16-36 | messages of one length, of any length, whose bits differ only inside a window of at most 32 consecutive positions share a checksum only if they are equal |
| `XorLists.LinkList.Append` | document/laboratory/c/unit/xor_solutions/save_memory_doubly_linklist.c:27-51 | the value is appended, every node holds the exclusive or of its neighbours' addresses, no other memory changes |
| `XorLists.LinkList.NodeNext` | document/laboratory/c/unit/xor_solutions/save_memory_doubly_linklist.c:53-57 | on every chain, from a node and the address before it, the address after it |
| `XorLists.ChainedBackwards` | document/laboratory/c/unit/xor_solutions/save_memory_doubly_linklist.c:53-57 | a chain read from its other end is a chain |
| `XorLists.LinkList.Walk` | document/laboratory/c/unit/xor_solutions/save_memory_doubly_linklist.c:65-69 | a walk from either end visits every node once, in order, and stops at null |
| `XorLists.LinkList.Forward` | document/laboratory/c/unit/xor_solutions/save_memory_doubly_linklist.c:65-69 | the walk from `begin` yields the values in order |
| `XorLists.LinkList.Backward` | document/laboratory/c/unit/xor_solutions/save_memory_doubly_linklist.c:73-76 | the walk from `end` yields them reversed |
| `XorLists.Replay` | document/laboratory/c/unit/xor_solutions/save_memory_doubly_linklist.c:27-77 | any appends at distinct non-null addresses, then both walks |
| `Base64.EmittedStep` | linux/ubuntu/application/termimage/kitty_gpu.cpp:9-16 | one more byte adds exactly the letters that become complete |
| `Base64.DecodeEncode` | linux/ubuntu/application/termimage/kitty_gpu.cpp:4-20 | the text is well formed by the character ranges of section 4 of RFC 4648, its unused bits are zero, and it decodes to the bytes |
| `Base64.EmitLetters` | linux/ubuntu/application/termimage/kitty_gpu.cpp:12-15 | the inner loop emits six bits at a time until fewer than six wait |
| `Base64.Base64Encode` | linux/ubuntu/application/termimage/kitty_gpu.cpp:4-20 | the 32-bit wrapping shift register computes the grouped base64 of section 4 of RFC 4648 for inputs of any length: well formed, and decoding to the input |
| `Base64.PadOut` | linux/ubuntu/application/termimage/kitty_gpu.cpp:18-18 | padding completes the last group |
| `Base64.EmitPackets` | linux/ubuntu/application/termimage/kitty_gpu.cpp:73-88 | the chunks are the text in pieces of 4096; only the first opens the image and only the last is flagged as last |
| `Base64.JoinSplit` | linux/ubuntu/application/termimage/kitty_gpu.cpp:77-79 | the pieces concatenate to the text |
| `Base64.SplitLengths` | linux/ubuntu/application/termimage/kitty_gpu.cpp:73-79 | every piece but the last has the full length and none is empty |
| `Base64.ChunksAreSlices` | linux/ubuntu/application/termimage/kitty_gpu.cpp:73-88 | each chunk is by itself the base64 form of the matching 3072-byte slice of the data |
| `Base64.SendImage` | linux/ubuntu/application/termimage/kitty_gpu.cpp:58-88 | encoding and chunking together; each chunk decodes to its 3072-byte slice of the image |
| `RunLength.GreedyExpands` | document/laboratory/cpp/Solution/Compress/RLE.cpp:29-57 | the greedy packets expand to the pixels |
| `RunLength.GreedyIsShortest` | document/laboratory/cpp/Solution/Compress/RLE.cpp:29-57 | no packing with counts up to 255 that expands to the same pixels has fewer packets |
| `RunLength.UnpackPayload` | document/laboratory/cpp/Solution/Compress/RLE.cpp:50-54 | the payload bytes read back as the packets |
| `RunLength.UnpackAt` | document/laboratory/cpp/Solution/Compress/RLE.cpp:50-54 | packet i stands at byte i * (1 + channels): its count, then its colour bytes |
| `RunLength.PixelsMatch` | document/laboratory/cpp/Solution/Compress/RLE.cpp:36-44 | the channel loop decides equality of two pixels |
| `RunLength.MeasureRun` | document/laboratory/cpp/Solution/Compress/RLE.cpp:32-48 | the run loop finds the longest run up to 255 |
| `RunLength.UnpackSize` | document/laboratory/cpp/Solution/Compress/RLE.cpp:50-54 | whatever a reader makes of any bytes is packable and takes no more bytes than it was read from |
| `RunLength.Compress` | document/laboratory/cpp/Solution/Compress/RLE.cpp:20-60 | the payload reads back as the bytes of the image, every count is in 1..255, and no byte sequence that reads back as the same image is shorter |

## Left out

- Conv2D.Conv2DLayer.Forward: inputs smaller than the kernel after padding are not modelled; the unsigned output size would be huge and the allocation would fail. Extents whose coordinates do not fit the signed type are not modelled either.
- RunLength.Compress: a null pixel pointer, for which the source returns an empty asset, is not modelled.
- QoiCodec.DecompressQoi: data whose last chunk runs past the array, or whose run overruns the image, is not modelled; the source indexes out of bounds there.
- Prices, quantities and ids of the order book have no machine width other than the modulus of `total_volume`.
- Memory order arguments of the atomics: the descriptor model is sequentially consistent.
- Copy assignment, conversion from a unique descriptor and the policies: they are sequences of the modelled steps, or system calls.
- Mutexes of sessions and of the switch guard; the guard is modelled as the moves it makes.
- Rounding of floating point, OpenMP scheduling, activation functions, losses, optimisers and initialisers.
- Backward pass of the convolution layer and `matmul_gemm`.
- Alignment, rebinding, requests for more than one block and destruction in the pool allocator.
- Terminal size, image loading and the text of the terminal escape sequences around the chunks.
- The compile-time file exports and the `main` functions of the compressors.
- The other QOI variants (QOI.cpp, DecompessQOI.cpp): the same logic as the two modelled files.
- Loggers, pipes, sockets, sessions, kernel modules, graphics and user-interface code: easy invariants or input and output only.
