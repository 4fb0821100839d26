# Verified model of the wiser search engine

wiser is a small full-text search engine in C. It cuts documents into n-grams and Latin words, keeps for every
token the documents and positions where it occurs, writes these lists to a database in Golomb-coded or plain form,
and answers queries by intersecting the lists and checking that the tokens stand in the right order. It carries its
own hash table, list macros, string search, bit buffer and character conversion.

This project models that pipeline in Dafny and proves what it is for:

* **Recall and exactness.** After any set of documents has been indexed and flushed, a search returns exactly the
  documents whose token stream holds the full-length tokens of the query (in their relative order when phrase search
  is on), each once. The score of each is given by the texts alone, as the sum over the different keys of the query of
  occurrences times weight, and the results stand best first, with ties in the order of the documents. A query that is a piece of a document, cut
  at token boundaries, is always answered with that document. The engine compares digests of encoded tokens; when that
  is as good as comparing tokens, and when the encoder stops the program instead, is decided by two if-and-only-ifs.
* **The buffered index refines the simple one.** At every point of every run, for every token, the stored list
  merged with the buffered list is the index "token, then document, then positions" of all documents so far. What
  ends up stored does not depend on the threshold or on the form of storage, and batches can be merged in any order.
* **The postings codec is lossless and small.** Decoding undoes encoding, bit by bit, whatever surrounds a code; a
  list of `n` numbers takes fewer than `n * (b + 2)` bits before padding, and what is stored is bounded accordingly.
* **The leapfrog searches** over documents and over positions agree with set comprehensions, and with each other in
  every order of the tokens.
* **The structures underneath**: a bit buffer, a stable merge sort on linked lists, a hash table with bucket chains on
  the heap, Knuth-Morris-Pratt search in both directions, UTF-8 conversion, and the reader of Wikipedia dumps.

Code that changes things step by step is modelled by methods with loops, arrays and classes with linked nodes, each
proved against a specification function; what the source promises is then proved about these functions.

## How the model is laid out

| file | what it models |
|---|---|
| `BitBuffer.dfy`, `BitReplay.dfy` | byte buffer with a bit cursor, `read_bit`, whole runs of both |
| `Golomb.dfy`, `GapCode.dfy` | Golomb codes, gap-coded ascending lists, their size |
| `PostingsCodec.dfy`, `PostingsStore.dfy` | both stored forms, their decoders and round trips; the encoding and decoding loops |
| `Tokenizer.dfy` | `ngram_next`, the stream of tokens and its closed form |
| `TokenKey.dfy` | the encoded bytes under which a token is stored, and when two tokens share them |
| `PhraseSearch.dfy`, `DocumentSearch.dfy` | the two leapfrog intersections, scores, the result table |
| `MergeSort.dfy`, `HashHandle.dfy`, `HashSort.dfy`, `ListSort.dfy` | bottom-up merge sort; the same on the heap for `HASH_SRT` and `LL_SORT2` |
| `PostingsList.dfy` | the linked postings list: merging, appending, deleting nodes in place |
| `SimpleIndex.dfy`, `TokenTable.dfy`, `InvertedIndex.dfy`, `Engine.dfy` | the index as it should be, the tokens table, the in-memory index, `add_document` as a state machine |
| `Query.dfy`, `ExactAnswers.dfy`, `SearchEngine.dfy` | what a query asks for, when the answer is exact, `search`, and whole runs |
| `HashBuckets.dfy`, `UtHash.dfy`, `HashCheck.dfy` | bucket chains and expansion, the hash table, `HASH_FSCK` |
| `Kmp.dfy` | string search with the strong failure table |
| `Utf.dfy` | code points to UTF-8 and back |
| `WikiLoad.dfy` | the event handlers of the dump reader |
| `Wrappers.dfy` | an option type and facts about sequences and sets |

## Conventions

* Numbers are unbounded; where the source stores an `int`, the model asks that it fits (`INT_MAX`), and integers in
  byte strings are four bytes, least significant first. `calc_golomb_params` needs `m` to be at most 2^30
  (`Golomb.ParamsFitInt` says why), so bodies and document counts are at most 2^30.
* The database is a table of titles, a table of tokens with ids counted from 1, and a count of documents. Tokens are
  looked up by an MD5 digest in the source, taken over the UTF-8 encoding of the token as far as `strlen` counts
  (`token.c:270-275`, `encrypt.c:87`). The model looks them up by these bytes, the key, which takes the digest to be
  injective on keys. `Query` states every property for both comparisons, `ByKey` and `ByToken`.
* The encoder's `abort` is an outcome: `None` or not `ok`, with an if-and-only-if for when it happens.
* In the engine the in-memory index is a finite map. That the hash table behaves as one is proved in `UtHash.dfy`,
  and every loop over entries visits them in an arbitrary order.
* The inverse document frequency is an arbitrary function to the real numbers, and scores are real numbers.
* Where a comment and the code disagree, the code is followed: `query_token_value_docs_count_desc_sort`
  (`search.c:78-83`) sorts by descending document count although its callers speak of ascending order, which by
  `DocumentSearch.HitsOrderFree` changes no result; and the switch in `end` (`wikiload.c:129-135`) falls from the
  timestamp case into the text case.

## Results that needed a condition

* A document stops the program exactly when some character of its body is 0x200000 or more, a query exactly when some
  full-length token holds such a character (`Engine.Env.AddDocument`, `SearchEngine.Search`). Such characters are
  reachable: `ExactAnswers.AbortingQuery` decodes them from five-byte forms.
* Keys end at a zero character, so a search by keys is not always a search by tokens. It is, for every document, if
  and only if no full-length token of the query holds a zero character or `token_len` is 1
  (`ExactAnswers.ExactExactlyWhen`). For every other query, `ExactAnswers.InexactAnswer` gives a document that is
  found and should not be, and `ExactAnswers.ZeroInQuery` is such a case: the bytes E4 B8 AD C0 80 with bigrams, and
  a document that is only U+4E2D. Zero characters in documents alone do no harm, and recall needs no condition.
* An encoded empty list, or a list with an empty posting, has no `m` where the decoder always reads one
  (`postings.c:310-318` against `242-245`). The round trip is proved for all other lists, and the engine is proved
  never to encode such a list. `PostingsCodec.GolombFormReadable` shows that the condition is needed: the empty list,
  and every list whose only empty posting is the last, cannot be read back. An empty posting further to the front
  makes the decoder take the next count for `m`; what it then reads depends on the data.
* A dump whose pages have a title and revisions with a timestamp before the text is read without using a NULL string
  if and only if no page has a second revision (`WikiLoad.RunDump`).
* Bytes survive decoding and re-encoding exactly when they are shortest-form UTF-8 in the sense of section 3 of
  RFC 3629, with the wider limit of 0x1fffff (`Utf.ImageIsWellFormed`).

## Model

| member | source | states |
|---|---|---|
| BitBuffer.BytesBitsInjective | postings.c:89-105 | Two byte strings with the same bits in reading order are equal |
| BitBuffer.BitsOfByte | util.c:108-109 | Bit 0 of a byte is its most significant one: the byte is the sum of the values 0x80, 0x40, .., 0x01 of its set bits |
| BitBuffer.ByteInOrder | postings.c:90-105 | Reading order: each byte of the data is the sum of the values of its own eight bits in the bit string |
| BitBuffer.IntInOrder | postings.c:309-318 | An `int` is laid out with its least significant byte first |
| BitBuffer.IntSign | postings.c:242-245 | Four bytes read as an `int` are their value in base 256, less 2^32 when the top bit is set |
| BitBuffer.IntRoundTrip | postings.c:242-245 | An `int` from 0 to INT_MAX read from the four bytes it was written as is the same number |
| BitBuffer.Buffer.constructor | util.c:38-52 | A new buffer has 32 bytes of capacity and holds no bits |
| BitBuffer.Buffer.Enlarge | util.c:61-74 | Capacity doubles in new storage; cursor, bit offset and all bits appended so far stay |
| BitBuffer.Buffer.Append | util.c:84-95 | The bits become the old ones padded with zeros to a byte boundary, then those of the chunk, for every chunk that fits after one doubling; the capacity doubles exactly when the chunk does not fit before |
| BitBuffer.Buffer.AppendBit | util.c:103-111 | The bits become the old ones and the new one, with the buffer enlarged when full; a byte begun holds 0x80 or 0 |
| BitBuffer.BitReader.ReadBit | postings.c:90-105 | The next bit of the data and a cursor one further, or -1 and no move at the end; at a byte boundary the bit says whether the byte is at least 0x80 |
| BitReplay.WriteInPlace | util.c:84-111 | In any run of bit and chunk writes, every write is found later at its own place, chunks at byte boundaries |
| BitReplay.WriteThenRead | util.c:38-111 | Any run of writes, with chunks up to what the capacity grown so far admits, closed by a realignment and read bit by bit until -1, gives back the written bits with zero padding |
| Golomb.ParamsFitInt | postings.c:114-122 | The power of two that the parameter loop looks for fits an `int` if and only if `m` is at most 2^30 |
| Golomb.CalcGolombParams | postings.c:114-122 | `b` is the least width with `m <= 2^b` and `t` is `2^b - m` |
| Golomb.GolombCodeIs | postings.c:186-215 | The code of `q * m + r` bit by bit: `q` ones, a zero, then most significant bit first `r` in `b - 1` bits if it is below `2^b - m`, and `r + 2^b - m` in `b` bits otherwise |
| Golomb.BinaryAtIs | postings.c:146-160 | The binary part reads the number that has the next bits, fewer of them where the data ends |
| Golomb.GolombAtIs | postings.c:135-175 | What decoding gives on any bits, also where they end within the code |
| Golomb.GolombEncoding | postings.c:186-215 | The buffer grows by exactly the Golomb code of the number |
| Golomb.GolombDecoding | postings.c:135-175 | For every bit string, also a truncated one, the number and cursor that the code at the cursor stands for |
| Golomb.BinaryRoundTrip | postings.c:146-172 | `w` bits of a number below `2^w` read back as the number |
| Golomb.RemainderRoundTrip | postings.c:146-172 | The first `b - 1` bits of a remainder tell short ones (below `t`) from long ones, and the rest determines it |
| Golomb.GolombRoundTrip | postings.c:135-215 | Self-delimiting: at the start of the code of `n`, whatever stands around it, decoding gives `n` and stops at its end |
| GapCode.EncodeGaps | postings.c:320-328 | The loop appends the codes of the gaps of an ascending list |
| GapCode.DecodeGaps | postings.c:247-257 | The loop reads that many gaps and adds them up |
| GapCode.GapsRoundTrip | postings.c:247-328 | Adding up the decoded gaps of a strictly ascending list gives the list and stops after its last code |
| GapCode.SizeBound | postings.c:314-328 | With `m` the mean gap, a list of `n` numbers has fewer than `n` unary ones and fewer than `n * (b + 2)` bits |
| PostingsCodec.GolombFormRoundTrip | postings.c:226-355 | `decode_postings_golomb` recovers every good non-empty list with non-empty postings and stops at the last bit of the last byte written |
| PostingsCodec.GolombFormReadable | postings.c:310-343 | Of the lists without empty postings except perhaps the last, the decoder reads back exactly the non-empty ones without any |
| PostingsCodec.EmptyLastPosting | postings.c:269-276 | At an empty last posting the decoder runs out of data for `m` |
| PostingsCodec.PlainRoundTrip | postings.c:16-80 | The plain form recovers every list, also empty ones |
| PostingsCodec.DocumentsHeader | postings.c:309-318 | The `int` behind the count of a stored list is the document count divided by the length of the list, rounded down |
| PostingsCodec.PositionsHeader | postings.c:332-343 | The `int` behind the count of each list of positions is its last position plus one divided by that count, rounded down |
| PostingsCodec.FormBound | postings.c:303-355 | With `b` the width of these quotients, each section of the stored form, for the ids and for every list of positions, takes at most two headers, `n * (b + 2)` bits and seven bits of padding |
| PostingsCodec.IntsRoundTrip | postings.c:16-80 | A sequence of `int`s laid out in memory is read back as the same sequence |
| PostingsStore.EncodePostingsGolomb | postings.c:303-355 | The nested encoding loops write exactly the Golomb form of the list, headed by its length and by the document count divided by it, and end on a byte boundary |
| PostingsStore.DecodePostingsGolomb | postings.c:226-292 | The nested decoding loops compute what the byte string means, for every input they can read |
| PostingsStore.EncodePostingsNone | postings.c:64-80 | The loops write exactly the plain form of the list |
| PostingsStore.DecodePostingsNone | postings.c:16-54 | The loops compute what the byte string means, for every input they can read |
| PostingsStore.EncodePostings | postings.c:393-407 | Whichever form is chosen, the bytes are non-empty and stand for exactly the given list; the plain form has two `int`s for a posting and one for a position, the Golomb form keeps the size bound and holds the right quotient |
| PostingsStore.DecodePostings | postings.c:367-382 | Whichever form is chosen, the list that the bytes stand for |
| Tokenizer.CharacterClasses | token.c:15-93 | The two tables character by character: printable ASCII splits into letters, digits and ignored characters, and which others are ignored |
| Tokenizer.TokenExtent | token.c:107-125 | A token that begins with a letter is the whole run of letters; any other has `n` characters, or fewer before an ignored character, a letter or the end |
| Tokenizer.NgramNext | token.c:96-128 | From any offset: the next character that is not ignored, the extent of the token there in terms of the text, and where to go on; 0 exactly at the end |
| Tokenizer.StreamClosedForm | token.c:95-128 | The scan emits, in order, exactly the offsets that are neither ignored nor inside a Latin run; the position of a token is the number of such offsets before it |
| Tokenizer.ScanLength | token.c:263-264 | From a token boundary on, the scan finds as many tokens as there are starts |
| Tokenizer.StreamInside | token.c:95-128 | Full-length tokens of a piece cut out at token boundaries stand in the whole text, all shifted by the same number |
| TokenKey.KeyIsEncoding | encrypt.c:82-88 | The key of a token is the encoding of the token up to its first zero character |
| TokenKey.SameKey | token.c:267-275 | Two tokens share a key if and only if they agree up to the first zero character |
| TokenKey.KeyInjective | token.c:267-275 | Without zero characters, tokens share a key only if they are equal |
| TokenKey.HashInput | token.c:267-275 | The bytes digested for a token are its key; an abort exactly when some character cannot be encoded |
| TokenKey.BodyHashable | token.c:263-275 | The encoder aborts on no token of a body if and only if it aborts on no character of the body, also for characters that only follow others |
| PhraseSearch.SeekOthers | search.c:177-195 | The inner loop reports alignment only at a match, and a jump or the early exit only over shifts that do not match |
| PhraseSearch.AdvanceFirst | search.c:196-205 | Moving the first cursor up to the next candidate passes over no match |
| PhraseSearch.CountIsCardinality | search.c:138-219 | The running count is the number of different shifts at which the query matches |
| PhraseSearch.CountPhrases | search.c:138-219 | `search_phrase` returns exactly the number of shifts at which every occurrence of the query finds its token |
| DocumentSearch.AddSearchResult | search.c:92-129 | The score is added in the first entry of the document, or a new entry goes to the end; all others stay |
| DocumentSearch.BuildCursors | search.c:141-173 | The array has room for the summed `positions_count` of the query tokens, exactly that many cursors are filled in, and they are one per query occurrence |
| DocumentSearch.MatchesIsPhraseAt | search.c:157-170 | The cursors set up for a document match at a shift if and only if every query occurrence stands there |
| DocumentSearch.SeekTerms | search.c:309-327 | The inner loop either puts every cursor on the document, or jumps or stops only over documents missing from some list |
| DocumentSearch.SearchPhrase | search.c:138-219 | At the documents the cursors sit on, the count is positive if and only if some shift matches |
| DocumentSearch.CalcTfIdf | search.c:230-243 | The score is the sum over all tokens of their `positions_count` in the document times idf |
| DocumentSearch.LeapfrogDocuments | search.c:303-353 | The loop adds exactly the hits, each once and in ascending order |
| DocumentSearch.HitsAre | search.c:303-353 | The hits are exactly the documents in all lists, with a matching phrase when asked for, with their scores, in ascending order |
| DocumentSearch.FreshTable | search.c:92-129 | Adding ascending hits to an empty result table leaves just these hits |
| DocumentSearch.ScoreOrderFree | search.c:230-243 | The score does not depend on the order of the tokens |
| DocumentSearch.HitsOrderFree | search.c:271-353 | Hits, their order and their scores are the same for every order in which the tokens are sorted |
| MergeSort.MergeSorts | include/uthash.h:745-783 | Merging two sorted runs gives a sorted run |
| MergeSort.PassDoublesRuns | include/uthash.h:733-785 | A pass over runs of length `k` leaves runs of length `2 * k` |
| MergeSort.MergeKeepsTies | include/uthash.h:758-766 | A merge keeps the order of elements that tie, the left run first |
| MergeSort.SortIsStableSort | include/uthash.h:719-796 | For every total preorder the result is a sorted, stable permutation |
| MergeSort.SortKeepsOrder | include/uthash.h:719-796 | Sorting a sequence that is in some order leaves elements that tie in that order |
| HashSort.MergeOne | include/uthash.h:745-783 | One round relinks one node to the output and keeps the three lists apart |
| HashSort.SortPass | include/uthash.h:728-786 | One pass relinks the list into the pass of the sort, and counts at most one merge exactly when the list was no longer than two runs |
| HashSort.HashSrt | include/uthash.h:719-796 | The same nodes become the sorted list, `prev` and `next` agree, head and tail are its ends, and only these links change |
| ListSort.LlSort2 | include/utlist.h:108-165 | The same on a singly linked list, also the empty one |
| PostingsList.MergePostings | postings.c:473-507 | The nodes of two disjoint lists are relinked into one list that is their merge; no other field changes and the abort branch is not reached |
| PostingsList.MergeIsUnion | postings.c:473-507 | The merge of two ascending lists without common documents is ascending and their multiset union |
| PostingsList.MergeCommutes | postings.c:560-581 | The order in which two batches are merged does not matter |
| PostingsList.MergeAssociates | postings.c:560-581 | Nor does the grouping of three batches |
| PostingsList.MergeLater | postings.c:522-526 | A batch of later documents ends up behind the stored list |
| PostingsList.Append | include/utlist.h:336-347 | The node is added behind the last one |
| PostingsList.Delete | include/utlist.h:352-366 | The node, if it is there, is taken out and the others keep their order |
| SimpleIndex.OccurrencesAre | token.c:263-281 | The positions of a key are exactly the places where a token with that key stands, in ascending order |
| SimpleIndex.IndexOfConcat | token.c:252-293 | The index of two batches is the index of the first followed by that of the second |
| SimpleIndex.IndexIsEncodable | postings.c:303-355 | Every list over good documents meets what the encoders ask for: ids and positions ascend, the list is no longer than the document count, no posting is empty, and `positions_count` is the number of positions |
| SimpleIndex.MergedLater | postings.c:473-507 | Merging the list of earlier documents with that of later ones appends it |
| TokenTable.InsertedKeepsLists | token.c:202 | Looking a token up for the first time gives it an id and changes no stored list |
| InvertedIndex.NextToken | token.c:203-235 | One more token turns the index of the tokens before it into the index with it |
| InvertedIndex.SkippedToken | token.c:267 | Leaving a short token out of a query index is right |
| InvertedIndex.HashOfDocument | token.c:263-281 | The index built from one document holds, for every key, its positions in the document and their number |
| InvertedIndex.HashOfDocumentEmpty | token.c:263-290 | It is empty if and only if the document has no tokens |
| InvertedIndex.MergeInvertedIndex | postings.c:560-581 | Visiting the entries in any order gives the key-wise merge, with counts of documents added up and counts of positions kept |
| InvertedIndex.MergedLists | postings.c:560-581 | The list of a token afterwards is the merge of its lists before |
| InvertedIndex.BatchesInAnyOrder | postings.c:560-581 | Batches without common documents, merged one after the other, give the same lists and counts of documents in every order |
| InvertedIndex.TextIsOneDocument | token.c:226-234 | Every list in the index of one text is a single posting of that document |
| InvertedIndex.DocumentsAreBatches | token.c:283-290 | The indexes of different documents are such batches |
| Engine.Env.constructor | wiser.c:94-107 | A new engine refines the index of no documents |
| Engine.Env.TokenToPostingsList | token.c:189-237 | The key gets its id, and the position is recorded and counted under it |
| Engine.Env.CollectTokens | token.c:252-281 | The loop builds exactly the index of the text, and aborts exactly when some kept token cannot be encoded; a query leaves the tokens table alone, a document only adds keys |
| Engine.Env.FetchPostings | postings.c:418-460 | The length check never fails, and the stored list is returned |
| Engine.Env.UpdatePostings | postings.c:514-552 | The stored list becomes its merge with the buffered one, encoded with the current document count, and only that row changes |
| Engine.Env.Flush | wiser.c:71-79 | Visiting the buffer in any order leaves an empty buffer and complete lists in storage |
| Engine.Env.TextToPostingsLists | token.c:252-293 | The write buffer becomes its merge with the index of the text; an abort exactly when the text cannot be encoded |
| Engine.Env.StoreDocument | wiser.c:22-62 | The document is added with the next id, and storage with buffer covers it; an abort exactly when the body cannot be encoded, with only the title and new keys left behind |
| Engine.Env.AddDocument | wiser.c:19-83 | One step of the run aborts exactly when the body cannot be encoded; otherwise it keeps the refinement, adds the document, and flushes exactly when something is buffered and the threshold is reached or the title is NULL |
| Engine.StorageAndBuffer | wiser.c:19-83 | At every point of a run, stored list merged with buffered list is the simple index of all documents, for every key |
| Engine.FlushedList | postings.c:514-552 | What a flush stores for a buffered token is the list over all documents, and it can be encoded |
| Query.InAllMeans | search.c:303-327 | Being in all lists of the query means holding, key by key, every full-length token of the query |
| Query.PhraseMeans | search.c:138-219 | A match of the phrase over the lists is a shifted occurrence in the text |
| Query.HitsAreAnswers | search.c:260-353 | The hits over the stored lists are the documents whose text answers the query, key by key |
| Query.KeyScoresWithout | search.c:235-241 | The sum over a set of keys does not depend on the order in which they are taken |
| Query.ScoreOverTexts | search.c:230-243 | The score of a document that is in all lists is the sum, over the different keys of full-length query tokens, of the number of occurrences in its text times the weight for the number of documents with the key |
| Query.PieceOccurs | token.c:95-128 | A piece of a text cut at token boundaries occurs in it, shifted by the tokens before it |
| ExactAnswers.KeyDecides | token.c:267-275 | A full-length token without zero characters shares its key with no other token that the tokeniser can make |
| ExactAnswers.ExactExactlyWhen | token.c:267-275 | Comparing keys finds the documents that comparing tokens finds, whatever the documents, if and only if no full-length query token holds a zero character or tokens are single characters |
| ExactAnswers.InexactAnswer | token.c:267-275 | For every other query there is a document that is found by keys and does not hold the tokens |
| ExactAnswers.ZeroInQuery | encrypt.c:82-88 | One such query, decoded from bytes, with a document of a single character |
| ExactAnswers.AbortingQuery | util.c:131-153 | A query, decoded from five-byte forms, on which the encoder aborts |
| SearchEngine.FetchTerms | search.c:280-300 | Fetching stops at an unknown token or an empty list and otherwise yields the lists of all tokens |
| SearchEngine.NothingAnswers | search.c:282-297 | When it stops early, no document answers the query |
| SearchEngine.FetchedTerms | search.c:280-300 | The fetched lists are one term for every different key of a full-length token of the query |
| SearchEngine.SearchDocsAnd | search.c:260-363 | The result table holds exactly the documents that answer the query, in ascending order with the scores that the texts give them, from terms taken by descending document count |
| SearchEngine.Search | search.c:659-717 | A search aborts exactly when some full-length query token cannot be encoded; otherwise it returns exactly the flushed documents that answer the query by keys, and by tokens under the condition of `ExactExactlyWhen`, each once, with the scores that the texts give them, by descending score and ascending document where scores are equal, and leaves the engine as it was |
| SearchEngine.SortedIsBestFirst | search.c:66-70 | Sorting hits in ascending order of documents puts higher scores first and leaves equal ones in that order |
| SearchEngine.HitsScored | search.c:230-353 | Every hit has the score that the texts give it |
| SearchEngine.ExactResults | search.c:260-363 | Under that condition, results that are correct by keys are correct by tokens |
| SearchEngine.PieceIsAnswered | search.c:260-363 | Recall: a search for a piece of a document with a full-length token returns the document, zero characters or not |
| SearchEngine.IndexAll | indexengine.c:107-115 | Indexing aborts exactly when some body cannot be encoded; otherwise, after the closing NULL title, the stored lists are the simple index, for every threshold and either form |
| SearchEngine.IndexAndSearch | indexengine.c:107-130 | End to end: when it aborts, and otherwise exact answers, their scores and order, and recall for every piece of every document |
| HashBuckets.AndMask | include/uthash.h:198-201 | Masking with the number of buckets less one is the remainder |
| HashBuckets.IdealChainIsCeiling | include/uthash.h:677-679 | The shift-and-mask formula is the number of items over the new number of buckets, rounded up, and positive when there are items |
| HashBuckets.PushChain | include/uthash.h:611-617 | The item becomes the head of the chain, both links agree |
| HashBuckets.UnlinkChain | include/uthash.h:625-636 | The item leaves the chain, wherever it stands |
| HashBuckets.PutInBucket | include/uthash.h:611-617 | Every item is still in the chain of its bucket, counts are exact, and the item has joined |
| HashBuckets.TakeFromBucket | include/uthash.h:625-636 | Every other item is still in the chain of its bucket, counts are exact, and the item has left |
| HashBuckets.MoveChain | include/uthash.h:683-700 | All items of an old chain move to their new buckets, and the items beyond the ideal length are counted |
| HashBuckets.Redistribute | include/uthash.h:666-701 | Doubling the buckets puts every item into its bucket, with exact counts, multipliers and number of non-ideal items |
| UtHash.AppendItem | include/uthash.h:173-187 | The list grows at its tail, both links agree |
| UtHash.UnlinkItem | include/uthash.h:226-241 | The item leaves the list, and head and tail follow |
| UtHash.Table.constructor | include/uthash.h:141-158 | An empty table |
| UtHash.Table.Find | include/uthash.h:94-105 | An item with the key if there is one, and NULL otherwise; with distinct keys, exactly the look-up in the abstract map |
| UtHash.Table.ExpandBuckets | include/uthash.h:666-711 | The table stays valid with twice the buckets; ideal length, number of non-ideal items, and the rule that gives up expanding |
| UtHash.Table.AddToBkt | include/uthash.h:611-622 | The item joins its bucket, and the table doubles exactly when the bucket reaches its limit and expansion is not given up |
| UtHash.Table.Add | include/uthash.h:173-196 | The item, whatever its key, is last in application order, all links and counts agree; with distinct keys and a new one, the map gains the key |
| UtHash.Table.Delete | include/uthash.h:215-248 | The item leaves, the others keep their order, all links and counts agree; with distinct keys, the map loses the key |
| UtHash.Table.SortItems | include/uthash.h:719-796 | The items are stably sorted; with distinct keys, the map is the same |
| HashCheck.ExcessIsSurplus | include/uthash.h:688-692 | The number of non-ideal items is how many have to go for all chains to have at most the ideal length |
| HashCheck.MultiplierIs | include/uthash.h:690-691 | The multiplier of a bucket is the length of its chain divided by the ideal length, rounded down, and 0 for chains within it |
| HashCheck.InOwnChain | include/uthash.h:198-201 | Every item stands in the chain that its hash value modulo the number of buckets names, and in no other |
| HashCheck.TotalIsNumItems | include/uthash.h:284-307 | The chains hold as many items as the list |
| HashCheck.Fsck | include/uthash.h:278-328 | On any table whose lists can be walked to their ends, the check objects exactly when a back link, the count of a bucket or the count of items is wrong |
| HashCheck.FsckAccepts | include/uthash.h:278-328 | None of these is wrong in a table that the operations reach, also with items of the same key |
| Kmp.BuildTable | include/utstring.h:156-193 | Every entry is the longest border that the next character does not continue alike, the last one the longest border of the needle |
| Kmp.BuildTableR | include/utstring.h:196-233 | The table is the mirror image of the left-to-right table of the reversed needle |
| Kmp.FollowTable | include/utstring.h:168-171 | Following the table during the build keeps every candidate border |
| Kmp.ShiftIsSafe | include/utstring.h:249-252 | The shift proposed by the table on a mismatch passes over no occurrence |
| Kmp.Find | include/utstring.h:236-265 | The first occurrence, or -1 when there is none |
| Kmp.FindR | include/utstring.h:269-299 | The last occurrence, or -1 when there is none |
| Kmp.OccursMirrored | include/utstring.h:269-299 | An occurrence in a string is one of the reversed needle in the reversed string |
| Kmp.UtstringFind | include/utstring.h:303-345 | The first occurrence at or after a start of either sign, or -1 when there is none |
| Kmp.UtstringFindR | include/utstring.h:349-387 | The last occurrence that ends at or before a start of either sign, or -1 when there is none |
| Utf.SkipCountsOnes | util.c:211-220 | A first byte announces as many bytes as it has leading ones |
| Utf.DecodeCharIs | util.c:267-283 | The value decoded, for forms of one to six bytes, is the number whose base-64 digits are the low bits of the bytes |
| Utf.DecodeTwoBytes | util.c:267-283 | For two bytes, `(a - 0xc0) * 0x40 + (b - 0x80)` |
| Utf.DecodeThreeBytes | util.c:267-283 | For three bytes, `(a - 0xe0) * 0x1000 + (b - 0x80) * 0x40 + (c - 0x80)` |
| Utf.EncodedDigits | util.c:179-202 | An encoded code point is the number whose base-64 digits its bytes hold |
| Utf.CharRoundTrip | util.c:179-202 | Every code point below 0x200000 is encoded in its shortest form and decoded back |
| Utf.CharRoundTripBack | util.c:267-283 | Every shortest-form character is the encoding of the code point it decodes to |
| Utf.EncodeThenDecode | util.c:166-288 | Decoding undoes encoding, and `utf8_len` counts the code points |
| Utf.DecodeThenEncode | util.c:166-288 | Encoding undoes decoding on shortest-form text |
| Utf.ImageIsWellFormed | util.c:166-206 | The encoder reaches exactly the shortest-form texts |
| Utf.CountsDecoded | util.c:229-245 | `utf8_len` aborts when and only when decoding does, and otherwise counts what it produces |
| Utf.CountsCutShort | util.c:229-245 | A last character that announces more bytes than are there is counted as one |
| Utf.Uchar2Utf8Size | util.c:131-153 | The number of bytes of the encoding, or an abort exactly when some code point is 0x200000 or more |
| Utf.Utf32ToUtf8 | util.c:166-206 | The encoding and a terminating zero are written, and nothing else |
| Utf.Utf8Len | util.c:229-245 | The number of characters counted, or an abort |
| Utf.Utf8ToUtf32 | util.c:257-288 | The decoded code points fill the new array exactly, or an abort |
| WikiLoad.StepConsistent | wikiload.c:129-148 | A NULL string is met exactly at an end tag `text` inside a timestamp, or at one that closes a text without a title or a timestamp |
| WikiLoad.RunConsistent | wikiload.c:42-180 | On every event stream: only an end tag `text` can meet a NULL string, and the callbacks made are those the limit allows |
| WikiLoad.RunRevision | wikiload.c:67-153 | A revision delivers its article if a title is there, and otherwise uses a NULL title |
| WikiLoad.RunDump | wikiload.c:42-180 | The callback gets exactly the articles, in order and up to the limit, however the text was cut; a NULL string is used if and only if some page has a second revision |
| WikiLoad.Saturated | wikiload.c:251-255 | Once the limit is reached no further callback is made |
| WikiLoad.WikipediaParser.StartElement | wikiload.c:42-90 | The transition for a start tag |
| WikiLoad.WikipediaParser.EndElement | wikiload.c:98-153 | The transition for an end tag, with the fall from the timestamp case into the text case |
| WikiLoad.WikipediaParser.ElementData | wikiload.c:162-180 | The transition for character data |
| WikiLoad.LoadWikipediaDump | wikiload.c:196-276 | Reading buffer by buffer and stopping after the buffer in which the limit was reached delivers exactly the articles up to the limit |

## Left out

- search_docs_or: the loop over the documents collects the list of the first token only and scores with cursors that never move (`search.c:448-472`), so it does not compute a union.
- The path for queries shorter than a token (`search.c:668-687`): it rests on pattern matching in the database over digests of tokens.
- Sorting results by size or time (`search.c:37-58`): the compiled-in choice is tf-idf.
- SearchEngine.Search: models the branch for queries of at least `token_len` characters without the OR option; `indexed_count` is the document count, as both programs set it before searching.
- Engine.Env.AddDocument: titles are new and bodies and document counts are at most 2^30; updating an indexed title is marked as broken in the source (`token.c:257`), and the copy of the title into a path is not part of this model.
- Engine.Env.FetchPostings: lists are sequences in the engine; that relinking nodes in place computes their merge is proved in `PostingsList.dfy`, and that the hash table is a map in `UtHash.dfy`, but the two are not composed with the engine on one heap.
- InvertedIndex.MergeInvertedIndex: the count of positions of a whole entry is not added up, as in the source; no later step reads it for a merged entry.
- BitBuffer.Buffer.Append: chunks that do not fit after one doubling are not covered, since the source copies them past the end of the buffer.
- PostingsStore.DecodePostingsGolomb: byte strings that end too early are excluded, since the source reads on past their end; no string it writes is of that kind.
- Utf.Utf32ToUtf8: the buffer has room for the terminating zero. The caller at `token.c:270-273` passes a buffer of exactly the encoded size, which leaves no such room; TokenKey.HashInput passes one byte more.
- Utf.Utf8ToUtf32: a last character that announces more bytes than are there is excluded, since the source reads on past the end.
- UtHash.Table.Add: the item is not in the table yet, and the unsigned counters do not wrap around.
- UtHash.Table.Find: which of several items with the same key is found is not stated.
- Kmp.UtstringFind: a negative start reaches back at most to the beginning of the string.
- Kmp.UtstringFindR: the start lies inside the string, since the source would read past the end otherwise.
- WikiLoad.LoadWikipediaDump: failures to open, read or parse the file; the XML library is represented by the events it delivers.
- Database statements, transactions, printing, the HTTP server, the command lines and the encryption tools.
- Allocation failure, freeing of memory, the Bloom filter option, the other hash functions (any function will do), and the variants for old compilers.
