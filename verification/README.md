# Image and label formats of an image library, verified

A Dafny model of the hard parts of an image input/output library, with proofs of what they are
for. Each module follows a source file or a part of one.

**GIF** (`Bits`, `SubBlocks`, `Lzw`, `LzwStream`, `GifTextbook`, `GifHash`, `GifDictionary`,
`EncoderState`, `GifEncoder`, `GifDecoder`, `GifRoundTrip`). `Lzw` is a reference: a compressor with a table of
strings, an expander, and the width rule, as in Appendix F of the GIF89a specification; it
proves that expanding undoes compressing although the expander lags by one entry. The classes
`GifEncoder` and `GifDecoder` are the library's state machines (running code and bits, shift
register, 255-byte sub-block buffer, open-addressing hash table on one side, prefix and suffix
arrays with a stack on the other). They are proved to do what the reference does, code by code
and line by line, and `GifRoundTrip` puts them together: any image, cut into lines in any way,
comes back through the bytes of the file, cut in any other way. `GifTextbook` has the format once
more, without the states of the library, and proves that the codes and bits written, and what is
made of any bits read, are those of the format.

**ODL labels** (`OdlShape`, `OdlTree`, `OdlSearch`, `OdlValues`). Linked objects with a cached
level. A tree is described by its objects in pre-order and their depths; `OdlShape` proves how
parents, siblings and children follow from the depths and how they change when a subtree is
pasted or cut, and `OdlTree` proves the pointer operations and the stackless traversal against
that. Ghost parameters name the tree that the objects form. `OdlValues` is the scanner for
nested sets and sequences, proved to undo printing.

**Colour quantisation** (`ColorLists`, `MedianCut`, `CutLaws`, `BoxCounts`, `Quantize`): median
cut with its linked lists of colours, its byte arithmetic, its partition, its number of boxes and
its error bound, what each cut does in numbers, and when the counts of its boxes are right.

**Raster geometry** (`IndexSpace`, `Reorganise`, `StripWriter`, `Tiles`, `Slice`, `Nested`,
`Layouts`, `CubeFile`): the index functions of three organisations, conversion, TIFF strips and
tiles, and strided slices of a cube with prefixes, suffixes and corners. `Nested` puts data
together from their pieces; `Layouts` and `CubeFile` state conversion and slices for data and files
that are put together so.

**Colour maps** (`ColorUnion`) and **BMP files** (`Bmp`). `Common` and `Arithmetic` have what
several modules use.

Streams are byte sequences, and allocation succeeds. Where the code does not do what its
comments promise, the model follows the code: the counts of the boxes (`quantize.c:71` calls
them the number of pixels of the entries), the backing up over colours without red and green
(`gifalloc.c:127-137` speaks of black ones), the search down from a childless object that goes
on to its siblings (`io_lablib3.c:5056`), the prefix of the second axis of a cube, which is
counted in the size of a plane but not skipped at its start (`iomedley.c:543-545`), and the sizes
in a BMP header (`io_bmp.c:832-851` speaks of the sizes of the file and of the raw image data),
which are computed with 3 bytes to a 32-bit word (`io_bmp.c:827`); this reader does not use them.
Each of these has an input that shows it and an exact condition below.

## Model

| member | source | states |
|---|---|---|
| GifRoundTrip.RoundTrip | libgif/egif_lib.c:350-376 | Every image, written by the encoder class in lines of any lengths and read by the decoder class in lines of any other lengths, with words of either width on either side, comes back with each pixel modulo two to the power of the bits of the colour map (at least two), and unchanged if its pixels fit them; the file is read up to what follows the image. |
| GifRoundTrip.Encode | libgif/egif_lib.c:350-376 | For every image, every way to cut it into lines of length 1 or more, every bit size of the colour map and either word size, the encoder class adds the same bytes to the file: the code size byte, and one chain of sub-blocks in which a textbook reader finds the masked pixels and then the end code. |
| GifRoundTrip.Decode | libgif/dgif_lib.c:343-379 | The decoder class, fed with those bytes and whatever follows them in the file, and asked for lines cut in any other way, returns the masked pixels without an error and stops right behind the image. |
| GifRoundTrip.PutPart | libgif/egif_lib.c:610-690 | One line of the image through the encoder: the pixels taken in so far are a prefix of the image, and the last line completes the file. |
| GifRoundTrip.GetPart | libgif/dgif_lib.c:619-741 | One line of the image out of the decoder: the pixels between two cuts, whatever the code boundaries. |
| GifTextbook.CodesOfImage | libgif/egif_lib.c:595-682 | For every image, the codes are the Clear, two to the power of the code size, then those of the greedy parse against one table of strings indexed by code (the longest known start, a new entry of one pixel more, a Clear when 4095 is the next code), and the end code, the Clear plus one. |
| GifTextbook.ImageIsRead | libgif/egif_lib.c:565-736 | The bits of the data of every image, whatever follows in the file, are those codes, each with its width, with fewer than eight bits left over; a textbook reader finds the pixels in them and then the end code. |
| GifTextbook.LineIsRead | libgif/dgif_lib.c:619-741 | For all bits, valid or not: what the reference reader makes of a line of any length is what a table of strings indexed by code gives: its pixels, the end code let pass in the place of the last pixel, and an error for an undefined code, an early end code and a file that breaks off. |
| GifTextbook.EndCodeFollows | libgif/egif_lib.c:670-682 | Reading one pixel more than an image has meets the end code. |
| GifTextbook.OnwardIsParse | libgif/egif_lib.c:626-664 | From every reachable state of the compressor on, its codes are those of the greedy parse of the match and the pixels to come. |
| Lzw.ExpandCompress | libgif/egif_lib.c:610-690 | Layer 1, pixels to codes: expanding the codes of the textbook compressor (with the clearing of a full table) gives the pixels back, for every non-empty pixel sequence. |
| Lzw.CodesMeanPixels | libgif/dgif_lib.c:640-735 | After every pixel, the codes sent so far mean the pixels before the current match, and the expander lags the compressor by exactly its newest entry. |
| Lzw.SynchronousStep | libgif/dgif_lib.c:675-733 | The lag is kept by every step, with the case of a code that the expander has not defined yet and the case of a Clear in the middle of the stream. |
| Lzw.SendMatch | libgif/dgif_lib.c:675-693 | The code of the match means the match to a table that lags by one entry, also if it is the missing entry. |
| Lzw.LagsAgain | libgif/egif_lib.c:648-663 | Entering the longer string makes the expander lag by that entry again. |
| Lzw.SoundStep | libgif/egif_lib.c:626-664 | Every compressor state: strings of two pixels or more with a known front, codes below 4095, the match always known. |
| Lzw.LeastWidthIsLeast | libgif/egif_lib.c:729-733 | The width of a code is the least one, from one bit more than a pixel has up to 12, that holds every code below the limit. |
| Lzw.WidthStep | libgif/dgif_lib.c:824-830 | One more code widens the codes by one bit exactly when it no longer fits, and never beyond 12 bits. |
| Lzw.CodeFitsWidth | libgif/egif_lib.c:698-736 | Every code that means something, and every Clear, is below two to the power of the current width. |
| Lzw.SerializeAppend | libgif/egif_lib.c:717-726 | Layer 2, codes to bits: the bits of two runs of codes are those of the first followed by those of the second at the width the first has led to. |
| Lzw.SerializeIsPacked | libgif/egif_lib.c:717-733 | The bits of the codes are the codes one behind the other, each with the width that the codes before it lead to. |
| Lzw.ExpandAppend | libgif/dgif_lib.c:640-735 | What a run of codes means after another run. |
| LzwStream.DecodeEncode | libgif/dgif_lib.c:585-741 | Layer 3, bits to file: reading any number of pixels from an encoded image, followed by anything, yields the image, and is never an error. |
| LzwStream.ReadTwoLines | libgif/dgif_lib.c:635-638 | Chunking of the decoder: a line of m and then a line of n pixels are a line of m + n pixels, for all inputs. |
| LzwStream.TakePending | libgif/dgif_lib.c:635-638 | Pixels left on the stack come first, and the rest of the line is as if they had never been there. |
| LzwStream.ReadCodes | libgif/dgif_lib.c:640-735 | Bits that start with a run of meaningful codes yield the pixels that the run means, Clear codes included. |
| LzwStream.ExpandImage | libgif/egif_lib.c:595-600 | The codes of an image with the leading Clear mean the image. |
| SubBlocks.ChainRoundTrip | libgif/dgif_lib.c:840-865 | Layer 4, bytes to sub-blocks: the payload of a chain is what was put in, and the chain ends with exactly one empty block, behind which the file goes on. |
| SubBlocks.ChainBytes | libgif/egif_lib.c:744-775 | Byte for byte: a length byte before every 255 bytes, 255 but for the last block, and an empty block at the end. |
| SubBlocks.FirstBlock | libgif/dgif_lib.c:840-865 | For all bytes: what the first byte of a chain says about the payload, and where the chain ends or breaks off. |
| SubBlocks.CodesRoundTrip | libgif/dgif_lib.c:799-865 | Any numbers of any widths that hold them come back, width by width, out of the bytes of a chain, whatever follows it; and the chain ends where the rest of the file begins. |
| SubBlocks.ChainFromBlocks | libgif/egif_lib.c:744-775 | Dumping full blocks of 255 bytes and flushing the last one makes the chain of all bytes. |
| SubBlocks.BlockWriter.Put | libgif/egif_lib.c:744-775 | Each byte joins the payload; the flush signal completes the chain, with the one empty block at the end. The index byte may stand at 255. |
| SubBlocks.BlockReader.NextByte | libgif/dgif_lib.c:840-865 | Delivers the payload byte by byte across blocks, with the index kept in a byte that wraps around behind a full block; fails if the data break off; behind the empty block that ends the chain it hands out a stale byte of the buffer and takes the block for one of 255 more bytes. |
| SubBlocks.BlockReader.SkipChain | libgif/dgif_lib.c:555-580 | Passes over the rest of the chain up to the empty block, and fails exactly if there is none. |
| Bits.RegisterAppend | libgif/egif_lib.c:717-718 | OR of a code shifted above the used bits of the register appends the bits of the code. |
| Bits.ToBitsSplit | libgif/dgif_lib.c:819-822 | Masking and shifting right take the lowest bits off the register. |
| Bits.MaskIsRemainder | libgif/egif_lib.c:370-375 | Masking a number with ones takes the remainder. |
| Bits.BitAt | libgif/egif_lib.c:717-726 | The bits of a number are taken with the lowest first. |
| Bits.BitByBit | libgif/egif_lib.c:717-718 | OR, AND and exclusive OR act on each bit of the operands. |
| Bits.BitsSurviveBytes | libgif/egif_lib.c:719-726 | Bits cut into bytes are read back in order, with fewer than eight filling bits. |
| Bits.UnpackPacked | libgif/dgif_lib.c:819-822 | Numbers written one behind the other, each with its own width, are read back width by width, whatever bits follow. |
| GifHash.GifHashTable.Clear | libgif/gif_hash.c:81-84 | The table of all ones stands for the empty map. |
| GifHash.GifHashTable.Insert | libgif/gif_hash.c:90-107 | Adding a fresh key to a table that is not full adds it to the map; the probing ends because a slot is empty. |
| GifHash.GifHashTable.Exists | libgif/gif_hash.c:113-132 | Returns the code of a key of the map and -1 for any other key, and ends. |
| GifHash.GifHashTable.ItemParts | libgif/gif_hash.h:19-22 | Key and code of a stored word come out again, for words of 32 and of 64 bits, and no key is that of an empty word. |
| GifHash.Pigeonhole | libgif/gif_hash.c:100-106 | Fewer keys than slots leave a slot empty. |
| GifHash.Advance | libgif/gif_hash.c:104-104 | A probe is one slot further on modulo the table size, so every slot is reached. |
| GifHash.KeyItem | libgif/gif_hash.c:141-144 | The first slot of a key lies in the table. |
| GifHash.KeyItemIs | libgif/gif_hash.c:141-144 | The first slot is the key folded with its upper bits by exclusive OR, modulo the table size. |
| GifDictionary.KeyInjective | libgif/egif_lib.c:628-630 | Prefix code and pixel make a key of their own, of 20 bits and below the sentinel. |
| GifDictionary.LookupAgrees | libgif/egif_lib.c:631-635 | Looking up the code of the match with the next pixel finds the code of the longer string, or finds nothing exactly if the string is new. |
| GifDictionary.InsertAgrees | libgif/egif_lib.c:661-662 | Inserting the key under the running code enters the longer string, and keeps all others. |
| EncoderState.WidthGrows | libgif/egif_lib.c:729-733 | The test of the running code against the maximal code plus one agrees with the width rule of the format. |
| EncoderState.MatchSent | libgif/egif_lib.c:637-644 | When a match ends, its code has been assigned, fits the width, and leaves encoder and format at the same width. |
| EncoderState.EntryAdded | libgif/egif_lib.c:660-663 | The new entry has the next code of the textbook table. |
| EncoderState.TableCleared | libgif/egif_lib.c:648-658 | A full table is cleared on both sides, the width falls back, and the match goes on with the pixel. |
| EncoderState.EndCode | libgif/egif_lib.c:670-682 | When the last match has been sent, the codes are the leading Clear and those of the image, and the end code, two to the power of the code size plus one, may be sent. |
| EncoderState.StartsMatching | libgif/egif_lib.c:595-600 | The leading Clear is sent at the first width and changes nothing else. |
| GifEncoder.GifEncoder.SetupCompress | libgif/egif_lib.c:565-602 | Writes the code size and the leading Clear, and starts an image. |
| GifEncoder.GifEncoder.PutLine | libgif/egif_lib.c:350-376 | Masks the line in place, rejects a line longer than the rest of the image without any effect, and after the last pixel leaves the complete encoded image in the file. |
| GifEncoder.GifEncoder.CompressLine | libgif/egif_lib.c:610-690 | The pixels taken in grow by the line; the match in progress is carried over; the last line ends the image. |
| GifEncoder.GifEncoder.CompressOne | libgif/egif_lib.c:626-664 | One turn of the loop keeps hash table, register, sub-block buffer and file in step with the textbook compressor. |
| GifEncoder.GifEncoder.CompressOutput | libgif/egif_lib.c:698-736 | The bits sent grow by the bits of the code; the flush signal ends the chain; the width grows when the running code needs it. |
| GifDecoder.GifDecoder.SetupDecompress | libgif/dgif_lib.c:585-611 | The decoder stands before the first code of the opened file. |
| GifDecoder.GifDecoder.DecompressInput | libgif/dgif_lib.c:799-832 | Takes the next code, of the prescribed width, off the bits to come, and fails exactly if there are too few. |
| GifDecoder.GifDecoder.GetPrefixChar | libgif/dgif_lib.c:749-755 | The first pixel of the string of a code; the cap on the steps is never met. |
| GifDecoder.GifDecoder.Trace | libgif/dgif_lib.c:694-711 | The trace puts the string of a code on the stack; neither the cap nor the size of the stack is reached. |
| GifDecoder.FollowChain | libgif/dgif_lib.c:699-705 | Each step along the prefix chain leads to a smaller code and takes the last pixel off the string. |
| GifDecoder.NewLink | libgif/dgif_lib.c:717-733 | The new entry is the string of the last code followed by the first pixel of the current one, and leaves all others as they are. |
| GifDecoder.GifDecoder.DecompressLine | libgif/dgif_lib.c:619-741 | A line is what the reference reader yields from the state, an error where that is an error, and leaves the state of the reference reader; an end code in the place of the very last pixel is passed over. |
| GifDecoder.GifDecoder.GetLine | libgif/dgif_lib.c:343-379 | A line, with the over-long line test and, after the last pixel, the skipping of the rest of the chain. |
| GifDecoder.OverlongLine | libgif/dgif_lib.c:357-363 | The test for an over-long line works on wrapped unsigned words: with 64 bits it finds every over-long line, with 32 bits it does so exactly if fewer than 65536 pixels are too many. |
| GifDecoder.OverlongLineMissed | libgif/dgif_lib.c:357-363 | A line of 65537 pixels with one pixel left, which 32-bit words let through. |
| OdlTree.GetObjDescLevel | io_lablib3.c:1342-1357 | The number of parents is the depth of the object in the tree. |
| OdlTree.TraverseTree | io_lablib3.c:5042-5080 | The stackless step goes to the next object in pre-order, or stops, and looks at the levels of ancestors only. |
| OdlTree.NextObjDesc | io_lablib3.c:690-732 | The next object of a search in each of the scopes. |
| OdlTree.AdjustObjDescLevel | io_lablib3.c:1400-1415 | Whatever the levels in the subtree were, all levels of the tree are right afterwards, although the traversal reads the levels that it repairs. |
| OdlTree.PasteObjDesc | io_lablib3.c:837-861 | All links and all levels are those of the tree with the subtree as last child: the pasted object has the parent, follows the former last child, and is one level deeper; the levels of the pasted objects do not matter; keywords stay. |
| OdlTree.PasteObjDescBefore | io_lablib3.c:901-924 | The same for a left sibling: it comes between the former left sibling, or the parent, and the old object, at its level; keywords stay. |
| OdlTree.PasteObjDescAfter | io_lablib3.c:964-987 | The same for a right sibling; keywords stay. |
| OdlTree.CutObjDesc | io_lablib3.c:773-800 | Afterwards the objects are linked as two trees: the rest, with the neighbours of the object linked to each other, and the subtree, without parent and siblings; keywords and levels stay. |
| OdlTree.SplicedIsLinked | io_lablib3.c:837-861 | Setting the links around the place of the paste is all that is needed: every other link is right as it is. |
| OdlTree.LinkedIsSpliced | io_lablib3.c:773-800 | In a tree that has the subtree, the links around it are those that a cut must undo. |
| OdlShape.OldRight | io_lablib3.c:964-987 | How right siblings change with a paste: only the left neighbour gets the new object. |
| OdlShape.OldLast | io_lablib3.c:837-861 | How last children change with a paste: only the parent, if nothing follows in it. |
| OdlShape.NewRoot | io_lablib3.c:837-861 | The relatives and the extent of the pasted object. |
| OdlShape.Relatives | io_lablib3.c:1342-1357 | The parent of an object is the last one before it that is less deep, and its subtree ends where one comes that is no deeper. |
| OdlShape.LeftIs | io_lablib3.c:901-924 | The left sibling is the one of the same depth before the object with only deeper ones between. |
| OdlShape.RightIs | io_lablib3.c:964-987 | The right sibling is the one of the same depth after the object with only deeper ones between. |
| OdlShape.Children | io_lablib3.c:837-861 | The first and the last child are the first and the last object of which it is the parent. |
| OdlShape.Split | io_lablib3.c:773-800 | Every subtree but the whole can be taken out, and put in again at the same place. |
| OdlShape.CutUndoesPaste | io_lablib3.c:773-800 | Taking a pasted subtree out gives both trees back. |
| OdlShape.VisitTree | io_lablib3.c:5042-5080 | A search down from the root visits every object once, in pre-order, and ends. |
| OdlShape.VisitDown | io_lablib3.c:5042-5080 | A search down from any object visits a stretch of the pre-order, each object once. |
| OdlShape.VisitEndAt | io_lablib3.c:5042-5080 | The stretch ends at the first object that is no deeper than the start and less deep than the one before it. |
| OdlShape.VisitThis | io_lablib3.c:699-703 | A search of one object visits it alone. |
| OdlShape.VisitsSubtreeOnly | io_lablib3.c:5056-5057 | That stretch is the subtree exactly if the start has a child or has no right sibling. |
| OdlShape.SiblingVisited | io_lablib3.c:5056-5057 | A tree of three objects in which the search down from a childless one visits its sibling. |
| OdlShape.VisitToEnd | io_lablib3.c:719-724 | A search to the end visits everything from the start on, once and in order. |
| OdlShape.VisitSiblings | io_lablib3.c:711-713 | A search of the siblings visits those from the start on, in order, and no others. |
| OdlShape.VisitChildren | io_lablib3.c:705-709 | A search of the children visits the start and all its children, in order, and no others. |
| OdlSearch.FindKwd | io_lablib3.c:1523-1563 | There is a list of exactly those keywords of the visited objects whose name matches the name pattern, if there is one, and whose value matches the value pattern, if there is one, in order of visit and of the objects' lists; the result is its p-th, or its first for position 0, and none if it is too short. |
| OdlValues.GetAllKwdValues | io_lablib3.c:2288-2306 | The list is what the scanner finds if the first character that is no blank opens a set or sequence, and otherwise the whole value. |
| OdlValues.ValueStart | io_lablib3.c:5218-5225 | The first character that is not one of braces, parentheses, comma, blank and line end. |
| OdlValues.ValueEnd | io_lablib3.c:5265-5286 | The closing quote, or the last character before the next delimiter that is not blank. |
| OdlValues.ScanPrinted | io_lablib3.c:2243-2313 | Printing any nested set or sequence, with blanks and line ends of its own in front of each value, and listing its values gives its texts in order. |
| OdlValues.TakeAtom | io_lablib3.c:5265-5286 | A quoted text without an inner quote, or an unquoted one without delimiters and edge blanks, is taken whole. |
| MedianCut.IndexIs | libgif/quantize.c:121-128 | The index of a sampled colour is made of the five high bits of each channel, red first. |
| MedianCut.MedianOf | libgif/quantize.c:270-281 | Walking along the links, it stops at the median: the first half is the longest start of the sorted colours that has no more than half of the count, except that each half gets a colour; the count is halved towards zero. |
| MedianCut.Split | libgif/quantize.c:256-321 | The halves are the box, cut at the median of its colours sorted along the axis. The links of the sorted colours are cut into two lists that end, one for each half, and no other link changes. The stored bytes never wrap: each half keeps its colours within its bounds, the bounds at the cut are those of the colours there, and those of the halves do not overlap; the counts keep their sum. |
| MedianCut.SortList | libgif/quantize.c:256-268 | The colours of the list, whichever way they were linked, are linked in sorted order, and the list ends. |
| MedianCut.ListsSplit | libgif/quantize.c:293-301 | After a split every box still has its list: the lists of the other boxes have no colour of the split one, so its links do not touch them. |
| ColorLists.ChainOnce | libgif/quantize.c:259-268 | A list of links that ends has no colour twice. |
| ColorLists.Relink | libgif/quantize.c:265-268 | Links the colours of an array in its order, ends the list, and changes no other link. |
| ColorLists.CutAfter | libgif/quantize.c:293-301 | Ends a list at a colour; what follows is a list of its own. |
| BoxCounts.HalvesSwapCounts | libgif/quantize.c:302-303 | The count field is meant to be the number of pixels of the box, but each half gets that of the other half. Whatever the count of the box was, both counts are right exactly if it was right and the halves have as many pixels. |
| BoxCounts.RunCounts | libgif/quantize.c:239-323 | Over a whole run of cuts: after the first n cuts all counts are right exactly if they were at the start and each of these cuts was into halves of as many pixels. |
| CutLaws.MedianLaw | libgif/quantize.c:256-304 | Of the colours of a box in ascending order along the axis, the first half is the longest start with at most half of the count of the box, but at least one colour and not all; the second half gets the count of the first. |
| CutLaws.BoundsLaw | libgif/quantize.c:285-321 | Along the axis, the first half ends at its last colour and the second starts at its first; everything else is as in the box. |
| CutLaws.WidestLaw | libgif/quantize.c:240-254 | The box that is split is the first with the greatest width among those with more than one colour, along the first such axis. |
| CutLaws.RunStep | libgif/quantize.c:239-323 | Each step of a run is such a split, of a box whose colours all occur in the image. |
| BoxCounts.PixelsOfPermutation | libgif/quantize.c:256-268 | Sorting the colours of a box does not change its number of pixels. |
| BoxCounts.CountOfTheOtherHalf | libgif/quantize.c:302-303 | Any split of the box of a colour with 1 pixel and one with 3, along any axis: both counts are wrong. |
| Quantize.FinalCounts | libgif/quantize.c:131-162 | For every image: the counts of the final boxes are the numbers of their pixels exactly if every cut of the run was even; the box that the run starts from has a right count. |
| Quantize.WrongCounts | libgif/quantize.c:302-303 | An image of one black and three blue pixels, for which every run that ends with two boxes has wrong counts. |
| Quantize.QuantizeFourPixels | libgif/quantize.c:96-228 | Quantising that image to two colours: the counts of the two boxes are not both the numbers of their pixels. |
| MedianCut.Candidate | libgif/quantize.c:240-254 | The first box and axis of the greatest width among the boxes with more than one colour, or none if there is no such box. |
| MedianCut.SubdivColorMap | libgif/quantize.c:230-326 | A run of steps, each of which splits the widest box at its median; ends with as many boxes as asked for or as there are colours, whichever is less; the boxes partition the colours, and each has its own list of them; the counts sum up to the pixels. |
| MedianCut.RunOn | libgif/quantize.c:239-323 | One more step on the boxes that a run has led to makes a longer run. |
| MedianCut.PoolSplit | libgif/quantize.c:239-323 | A split keeps the colours and the sum of the counts. |
| MedianCut.Disjoint | libgif/quantize.c:293-301 | No colour is in two boxes. |
| MedianCut.PoolSize | libgif/quantize.c:256-257 | There are no more boxes than colours, and as many exactly if each box holds one. |
| Quantize.Sample | libgif/quantize.c:120-129 | The histogram counts the pixels of each sampled colour. |
| Quantize.HistogramLaw | libgif/quantize.c:120-129 | The number for a colour is that of the pixels whose high bits are its index. |
| Quantize.AverageLaw | libgif/quantize.c:175-193 | Each channel of a map entry is the sum of the channel over the colours of the box, times 8, divided by their number and rounded down. |
| Quantize.ChainColours | libgif/quantize.c:142-155 | The links lead through exactly the colours that occur, in ascending order, and end. |
| Quantize.AverageInBox | libgif/quantize.c:175-193 | Each channel of a map entry lies between the bounds of its box, so it never wraps. |
| Quantize.FillMap | libgif/quantize.c:175-194 | Walking along the links of each box: every map entry is the average of its box, and every colour is noted to be in a box that has it. |
| Quantize.PixelError | libgif/quantize.c:198-216 | A pixel is off by no more than the width of its box plus 7 in each channel; alone in its box, it only loses its low three bits. |
| Quantize.QuantizeBuffer | libgif/quantize.c:96-228 | For every image: the number of colours; the run of cuts from the one box, of full width, of all sampled colours in ascending order, each of which takes the longest start with at most half of the count; their division among the boxes; when the counts of the boxes are right; the averages in the map; the error bound of every pixel in each channel; the exact outcome if the colours fit the map; and zeroes in the rest of the map. |
| IndexSpace.XposOfCpos | iomedley.c:1231-1246 | From a pixel to its index and back, in each of the three orders. |
| IndexSpace.CposOfXpos | iomedley.c:1211-1221 | From an index to its pixel and back, in each of the three orders. |
| Reorganise.ConvertToBIP | iomedley.c:1114-1203 | The converted data are, for every organisation, the samples of the pixels in band-interleaved-by-pixel order; data in that order are copied. |
| Reorganise.BipPixel | iomedley.c:1182-1195 | Every pixel of the result has the bytes of the same pixel of the data. |
| Reorganise.OffsetIsCpos | iomedley.c:1185-1192 | The offsets of the converter are those of the general index function. |
| Reorganise.BipOfBip | iomedley.c:1179-1180 | Data that are in the order already come out as they are. |
| Layouts.ConvertLaw | iomedley.c:1114-1203 | For every image, given in any organisation as the samples put one behind the other, the converter makes the samples of the same image put one behind the other in band-interleaved-by-pixel order. |
| Layouts.ArrangedAt | iomedley.c:1211-1221 | The index function finds every sample in data that are put together line by line, in each organisation. |
| Nested.SampleAt | iomedley.c:1211-1221 | Where a sample is in lines, planes and planes of planes put one behind the other. |
| Nested.AllSamples | iomedley.c:1182-1195 | Data with the samples of an image at their indices are the samples put one behind the other. |
| StripWriter.WriteStrips | io_tiff.c:611-655 | For any number of rows per strip, the strips together are the output of the converter, all but the last have full size, and no bytes remain. |
| StripWriter.FillStrip | io_tiff.c:641-646 | A strip holds the next samples of the converter's output. |
| StripWriter.StripsCover | io_tiff.c:615-617 | The strips cover all lines, and all of them are needed. |
| Tiles.ReadTiles | io_tiff.c:384-413 | For all sizes and both planar configurations, every byte of the image is the byte of the tile that it lies in; it fails exactly if a tile with a part in the image cannot be read. |
| Tiles.CopyTile | io_tiff.c:401-410 | A tile sets exactly the bytes of the image that lie in it, clipped at the edges, and no others. |
| Tiles.PixelOfTile | io_tiff.c:401-410 | In pixels: the byte of a band of a pixel comes from that byte of the pixel at its place in the tile that contains it. |
| Tiles.TileLaw | io_tiff.c:384-413 | Of the data that are read, the byte of a band of a pixel is that at the place of the pixel in the tile that covers it, with the bands of a pixel side by side. |
| Tiles.TileLawOfBands | io_tiff.c:384-413 | The same with one band after the other. |
| Tiles.PlaceOfPosition | io_tiff.c:404-407 | Plane, row and byte in the row can be got back from the position of a byte. |
| Slice.IHeader.SetSlice | iomedley.c:331-354 | The limits and strides that are set go to the axes that samples, lines and bands have in the file; nothing else changes. |
| Slice.IHeader.ReadQubeData | iomedley.c:437-624 | For every slice within the cube, the result has exactly the bytes of the samples that the slice picks, and the header comes out filled in, with limits counting from 1, so that a second read gives the same data. |
| Slice.IHeader.ReadSlice | iomedley.c:331-624 | Setting a slice and reading, as the header file prescribes (iomedley.h:284): sample, line and band of the result are there exactly if the slice reaches so far, and are those of the cube at lower limit plus multiple of the stride, in each of the three organisations; what the slice leaves open is as in the header. |
| Slice.AskedIsRead | iomedley.c:331-624 | The same as a law about every header, slice, file and pixel. |
| CubeFile.SampleInFile | iomedley.c:543-599 | In a file put together from a label and planes of lines with prefixes, suffixes, side planes and corners of the sizes in the header and any content, the position that takes account of all prefixes has the sample. |
| CubeFile.SliceLaw | iomedley.c:331-624 | Reading a slice of such a file gives exactly the samples of the slice of the image put one behind the other, in the same organisation, whatever the other bytes are, if there is no prefix of the second axis. |
| CubeFile.ReadImage | iomedley.c:331-624 | The two calls on such a file. |
| Slice.RangeLaw | iomedley.c:331-354 | Which limits and strides hold along samples, lines and bands, by the fields of header and slice: what is not set is the first, the last, and a stride of 1. |
| Slice.CutSample | iomedley.c:543-599 | Each sample of the result is the one at lower limit plus multiple of the stride on each axis, at its position past prefixes, suffixes and corner. |
| Slice.CutOrganised | iomedley.c:543-599 | The same for samples, lines and bands in each of the three organisations. |
| Slice.PrefixIsRead | iomedley.c:543-599 | The samples that are read are those behind the prefix of the second axis, for every file and every sample, exactly if there is no such prefix: it is counted in the size of a plane, but not skipped. |
| Slice.PrefixByteRead | io_vicar.c:147-268 | A file in the order of BIP with one byte before its sample (NBB, which the header reader makes a prefix of the second axis): the byte of the prefix is read for the sample. |
| Slice.ReadBlock | iomedley.c:586-590 | Copying a line in one block, with no stride, is copying it sample by sample. |
| Slice.ReadLine | iomedley.c:580-599 | A line is copied right, whichever of the two ways is taken. |
| Slice.NormalTwice | iomedley.c:480-484 | Filling in what is not set changes nothing the second time. |
| Slice.PickedInside | iomedley.c:503-503 | The number of samples read along an axis is the number of steps that stay within the extent, and all of them lie in the slice. |
| ColorUnion.UnionColorMap | libgif/gifalloc.c:98-188 | The union is map 1 up to the slots it gave up, the new colours of map 2, and zeroes up to the next power of two, within the allocation; there is none exactly if it needs more than 256 slots. |
| ColorUnion.UnionLaw | libgif/gifalloc.c:122-181 | Spelled out: map 1 up to the slot after its last colour with red or green, then the colours of map 2 that map 1 does not have, with their repetitions and in order, then black; and where each colour of map 2 goes. |
| ColorUnion.BacksUpPastStart | libgif/gifalloc.c:134-137 | The backing up finds no slot to stop at exactly if red and green are zero in all colours of map 1. |
| ColorUnion.UnionPreserves | libgif/gifalloc.c:122-155 | If the last colour of map 1 has red or green in it, the union starts with map 1 and has every colour of map 2 where the translation says. |
| ColorUnion.UnionMeaning | libgif/gifalloc.c:127-155 | In general, the translations are right exactly if no colour that map 2 refers to lost its slot to the backing up. |
| ColorUnion.UnionKeepsMap1 | libgif/gifalloc.c:122-176 | The union starts with map 1 exactly if no slot was given up, or only black ones that no new colour takes and that stay within the union. |
| ColorUnion.BlueIsLost | libgif/gifalloc.c:134-137 | A map with a shade of blue at the end, for which the translation is wrong. |
| ColorUnion.MakeMapObject | libgif/gifalloc.c:39-66 | A map of zeroes for sizes 2, 4 and so on up to 512, and none for any other size. |
| ColorUnion.SizesOfMaps | libgif/gifalloc.c:39-66 | The allowed sizes are 2, 4, 8, 16, 32, 64, 128, 256 and 512. |
| ColorUnion.BitSize | libgif/gifalloc.c:23-32 | The least number of bits from 1 to 8 that can hold the values, or 9. |
| ColorUnion.RoundedFits | libgif/gifalloc.c:163-181 | Rounding the slots up to a power of two stays within the allocation. |
| ColorUnion.ApplyTranslation | libgif/gifalloc.c:190-200 | Each pixel is replaced by its translation. |
| ColorUnion.MergeImage | libgif/gifalloc.c:98-200 | Union and translation together: a pixel looks as it did exactly if its colour was kept, and map 1 stays in front exactly under the condition of UnionKeepsMap1; if map 1 ends in red or green, every pixel looks as it did. |
| Bmp.WriteBMP | io_bmp.c:720-882 | The file of an image with one or three bands in any organisation: header, grey palette, and padded lines from the bottom up. Neither of the two sizes in the header is right. |
| Bmp.HeaderSizes | io_bmp.c:827-851 | The sizes of the file and of the image data in the header, as 32-bit numbers, are right exactly if the image is empty; if the file is below four gigabytes, each is short by a byte for every 32-bit word of image data. |
| Bmp.OnePixelSizes | io_bmp.c:827-851 | An image of one black pixel: 1082 bytes with 4 of image data, for which the header says 1081 and 3. |
| Bmp.HeaderFields | io_bmp.c:829-857 | The two letters, the offset, the size of the info header, width, height, planes, bits per pixel, compression and number of colours in the header. |
| Bmp.PixelOfFile24 | io_bmp.c:972-993 | Where the file has each byte of each pixel of three bands: the last line first, lines of whole words, blue before green before red. |
| Bmp.PixelOfFile8 | io_bmp.c:946-969 | Where the file has each pixel of one band. |
| Bmp.GreyOfFile | io_bmp.c:857-864 | Entry i of the palette is i, i, i and 0. |
| Bmp.Lines24Length | io_bmp.c:972-993 | The padded lines of a 24-bit image have four bytes for each 32-bit word, in number what the header takes three bytes for. |
| Bmp.Lines8Length | io_bmp.c:946-969 | The same for an 8-bit image. |
| Bmp.ReadBMP | io_bmp.c:165-356 | Reading such a file gives the same dimensions and the same bytes in band-interleaved-by-pixel order. |
| Bmp.Stream.LoadBMP24 | io_bmp.c:674-704 | Reads the lines from the bottom up into their places, with blue, green and red turned round. |
| Bmp.Stream.LoadBMP8 | io_bmp.c:550-586 | Reads the lines from the bottom up through the palette, past the padding. |
| Bmp.Stream.LoadPalette | io_bmp.c:276-296 | The palette is read as the grey one, so the image has one band. |
| Bmp.Stream.GetInt | io_bmp.c:1004-1012 | Four bytes with the lowest first are the number that was written. |
| Bmp.IntOfBytes | io_bmp.c:1026-1035 | The four bytes of a number are the number as far as 32 bits go. |

## Left out

- GifDecoder.GifDecoder.DecompressLine: streams on which the reference reader would read behind the end of the chain, or assign a code above 4095, are excluded; the decoder has no check for them, and the encoder's Clear comes before.
- GifDecoder.GifDecoder.SetupDecompress: code sizes other than 2 to 8 are excluded; the encoder writes no others.
- GifRoundTrip.Decode: line lengths are below two to the power of 31, the range of the argument.
- OdlTree.CutObjDesc: the root of a tree is excluded; the code reads through its null parent.
- OdlTree.PasteObjDescBefore: the old object is not the root; the code reads through its null parent. The same for PasteObjDescAfter.
- OdlSearch.FindKwd: the list of keywords of an object is a sequence, and the wild-card comparison is a parameter.
- OdlValues.GetAllKwdValues: values with a quote that is never closed are excluded; the scanner would run off the end of the text. That it cuts the text with a temporary null character is not modelled.
- MedianCut.Sort: stands for the library's qsort; callers only use that it sorts.
- MedianCut.SortList: the fields of a colour entry are separate arrays (count, link, new index), and a box has its colours as a sequence beside the links that lead through them.
- Quantize.QuantizeBuffer: an image has at least one pixel, and the number of pixels does not overflow; the largest error, which only a debug print uses, is not computed.
- StripWriter.WriteStrips: the choice of about 8 KB for a strip is generalised to any number of rows.
- Tiles.ReadTiles: sizes are unbounded, so a product of bands and rows that overflows 32 bits is not modelled.
- Slice.IHeader.ReadQubeData: a file that ends early, byte swapping, the gain and the temporary buffer's allocation are not modelled; slices reach no further than the cube.
- Reorganise.ConvertToBIP: images of no pixels are excluded.
- ColorUnion.UnionColorMap: map 1 has a colour with red or green in it; on others (`BacksUpPastStart` says which) the code reads in front of the map.
- Bmp.ReadBMP: only files that WriteBMP makes, with sizes that fit the header; other headers, bit depths and run-length compression are not modelled.
- Error codes and messages, file handles, failures of reading, writing and allocation.
- Single pixel calls of the GIF library, screen and image descriptors, extensions, DGifSlurp and EGifSpew.
- The ODL label parser, file expansion, data types of values, and the keyword editing operations.
- TIFF images without tiles, 64-bit and floating point conversions, and everything inside the TIFF, PNG and JPEG libraries.
- Format sniffing and the header readers of the other formats.
